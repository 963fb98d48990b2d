/** The kernel's temporary mapping window: the region that the boot stub mapped onto its own
    page table. Reads and writes of the region go through the processor's translation, so a
    store into it edits the table that translates the region itself. */
module TempWindow {
  import opened Bits
  import opened BitForms
  import opened PagingSpec
  import opened PagingTheorems
  import opened PagingProofs
  import opened Boot
  import PagingRuns

  // ----- Memory as the kernel sees it -----

  /** Whether a load, or a store, of the kernel gets through; otherwise it is a page fault. */
  predicate CanLoad(pages: map<u64, Page>, root: u64, v: nat) {
    Walk(pages, root, v).Mapped?
  }

  predicate CanStore(pages: map<u64, Page>, root: u64, v: nat) {
    CanLoad(pages, root, v) && Walk(pages, root, v).writable
  }

  /** The 8-byte word at a virtual address that can be loaded. */
  function LoadVirtual(pages: map<u64, Page>, root: u64, v: nat): u64 {
    match Walk(pages, root, v)
    case Fault => 0
    case Mapped(frame, _, _) => Load(pages, frame, v % 0x1000 / 8)
  }

  /** Memory after a store, or after the page fault that it raised instead. */
  function StoreVirtual(pages: map<u64, Page>, root: u64, v: nat, w: u64): map<u64, Page> {
    if CanStore(pages, root, v) then Store(pages, Walk(pages, root, v).frame, v % 0x1000 / 8, w) else pages
  }

  /** The window at `region` is usable: its tables are a tree, it is aligned to 2 MiB, and its
      first page maps the page table of the region for writing. */
  ghost predicate Open(s: State, root: u64, region: u64) {
    && WellFormed(s, root) && region % 0x20_0000 == 0
    && SelfMapped(s.pages, root, region) && CanStore(s.pages, root, region)
  }

  /** The entry of a slot, as the processor uses it for the slot's page. */
  function Slot(pages: map<u64, Page>, root: u64, region: u64, i: nat): u64 {
    LoadVirtual(pages, root, region + 8 * i)
  }

  lemma SamePage(region: u64, i: nat)
    requires region % 0x20_0000 == 0 && i < 512
    ensures PageNumber(region + 8 * i) == PageNumber(region)
    ensures (region + 8 * i) % 0x1000 / 8 == i
    ensures PageNumber(region) / 512 * 512 == PageNumber(region)
  {
    var k := region / 0x20_0000;
    assert region == 0x1000 * (512 * k);
    DivUnique(region, 0x1000, 512 * k, 0);
    DivUnique(region + 8 * i, 0x1000, 512 * k, 8 * i);
    WindowPage(k);
  }

  lemma WindowPage(k: nat)
    ensures 512 * k % 0x10_0000_0000 / 512 * 512 == 512 * k % 0x10_0000_0000
  {
    var q, r := k / 0x800_0000, k % 0x800_0000;
    DivUnique(512 * k, 0x10_0000_0000, q, 512 * r);
  }

  /** In an open window no load and no store of a slot raises a page fault. */
  lemma OpenNeverFaults(s: State, root: u64, region: u64, i: nat)
    requires Open(s, root, region) && i < 512
    ensures CanLoad(s.pages, root, region + 8 * i) && CanStore(s.pages, root, region + 8 * i)
  {
    hide Walk, View, WellFormed, PageNumber, SelfMapped;
    SamePage(region, i);
    WalkIsTheMap(s.pages, root, region + 8 * i);
    WalkIsTheMap(s.pages, root, region);
  }

  /** Reading word i of the region reads the entry that translates the page of slot i. */
  lemma SlotTranslates(s: State, root: u64, region: u64, i: nat)
    requires Open(s, root, region) && i < 512
    ensures Slot(s.pages, root, region, i) == Load(s.pages, Walk(s.pages, root, region).frame, i)
    ensures Walk(s.pages, root, region + i * 0x1000) == LeafMapping(Slot(s.pages, root, region, i))
  {
    hide Walk, View, WellFormed, PageNumber, WalkDepth, ServingTable;
    SamePage(region, i);
    SlotPage(region, i);
    WalkIsTheMap(s.pages, root, region + 8 * i);
    WalkIsTheMap(s.pages, root, region);
    WindowLoad(s, root, region, i, region + i * 0x1000);
  }

  /** A store to word i of the region changes the mapping of the page in slot i and no other;
      the window stays open when the store keeps out of slot 0. */
  lemma StoreInWindow(s: State, root: u64, region: u64, i: nat, w: u64)
    requires Open(s, root, region) && i < 512
    ensures var s' := s.(pages := StoreVirtual(s.pages, root, region + 8 * i, w));
            && WellFormed(s', root)
            && (forall v: nat :: Walk(s'.pages, root, v)
                 == if PageNumber(v) == PageNumber(region) + i then LeafMapping(w) else Walk(s.pages, root, v))
            && (i != 0 ==> Open(s', root, region))
  {
    hide Walk, View, WellFormed, PageNumber, WalkDepth, ServingTable, LeafMapping;
    SamePage(region, i);
    WalkIsTheMap(s.pages, root, region + 8 * i);
    WalkIsTheMap(s.pages, root, region);
    WindowStore(s, root, region, i, w);
  }

  /** Only word j of frame f differs, and it is w now. */
  ghost predicate OneWord(pages: map<u64, Page>, pages': map<u64, Page>, f: u64, j: nat, w: u64)
    requires j < 512
  {
    && pages'.Keys == pages.Keys && f in pages && pages'[f][j] == w
    && forall t, k | t in pages && 0 <= k < 512 && (t != f || k != j) :: pages'[t][k] == pages[t][k]
  }

  /** Of all of memory a store into slot i changes the word of that slot only. */
  lemma StoreIsOneWord(s: State, root: u64, region: u64, i: nat, w: u64)
    requires Open(s, root, region) && i < 512
    ensures Walk(s.pages, root, region).Mapped?
    ensures var f := Walk(s.pages, root, region).frame;
            && OneWord(s.pages, StoreVirtual(s.pages, root, region + 8 * i, w), f, i, w)
            && s.pages[f][i] == Slot(s.pages, root, region, i)
  {
    hide Walk, View, PageNumber, WalkDepth, ServingTable, Forms;
    SamePage(region, i);
    WalkIsTheMap(s.pages, root, region + 8 * i);
    WalkIsTheMap(s.pages, root, region);
    WindowInUse(s, root, region);
  }

  lemma WindowInUse(s: State, root: u64, region: u64)
    requires Open(s, root, region)
    ensures Walk(s.pages, root, region).frame in s.pages
  {
    hide Walk, PageNumber, WalkDepth, ServingTable;
    var tree :| Good(s, root, tree);
    SelfMappedTable(s, root, tree, region);
  }

  // ----- Pointers into the window -----

  /** `((uint64_t)virtual_address >> 12 & 0x1ff) / 8` */
  function SlotOfPointer(v: u64): nat {
    EntryPT(v) / 8
  }

  /** The pointer that TempMap computes for slot i: `temp_mapping_region + i * 0x1000` on a
      pointer to 8-byte words. */
  function PointerForSlot(region: u64, i: nat): nat {
    region + i * 0x8000
  }

  /** FreeTempMap finds the slot of a pointer made by TempMap exactly for the first 64 slots;
      the pointers of higher slots run around the 2 MiB of the region. */
  lemma SlotRoundTrip(region: u64, i: nat)
    requires region % 0x20_0000 == 0 && PointerForSlot(region, i) < TWO_64
    ensures SlotOfPointer(PointerForSlot(region, i)) == i % 64
    ensures SlotOfPointer(PointerForSlot(region, i)) == i <==> i < 64
  {
    var k := region / 0x20_0000;
    var p := PointerForSlot(region, i);
    assert p == 0x1000 * (512 * k + 8 * i);
    assert p / 0x1000 == 512 * (k + i / 64) + 8 * (i % 64);
    DivUnique(p / 0x1000, 512, k + i / 64, 8 * (i % 64));
  }

  /** For any pointer into the 2 MiB of the window: eight pages share a slot. */
  lemma SlotOfAnyPointer(region: u64, o: nat)
    requires region % 0x20_0000 == 0 && o < 0x20_0000 && region + o < TWO_64
    ensures SlotOfPointer(region + o) == o / 0x8000
  {
    var k := region / 0x20_0000;
    DivByParts(o, 0x1000, 8);
    assert region == 0x1000 * (512 * k);
    DivUnique(region + o, 0x1000, 512 * k + o / 0x1000, o % 0x1000);
    DivUnique(512 * k + o / 0x1000, 512, k, o / 0x1000);
  }

  // ----- The operations on values -----

  /** Memory after TempMap found slot 1 free. */
  function AfterTempMap(pages: map<u64, Page>, root: u64, region: u64, physical: u64): map<u64, Page> {
    StoreVirtual(pages, root, region + 8, LeafEntry(Address(physical), false))
  }

  /** Memory after FreeTempMap. */
  function AfterFreeTempMap(pages: map<u64, Page>, root: u64, region: u64, pointer: u64): map<u64, Page> {
    var i := SlotOfPointer(pointer);
    var w := Slot(pages, root, region, i);
    StoreVirtual(pages, root, region + 8 * i, w - w % 2)
  }

  /** TempMap maps the frame at the page of slot 1 and changes nothing else. */
  lemma TempMapMaps(s: State, root: u64, region: u64, physical: u64)
    requires Open(s, root, region)
    ensures var s' := s.(pages := AfterTempMap(s.pages, root, region, physical));
            && Open(s', root, region)
            && forall v: nat :: Walk(s'.pages, root, v)
                 == if PageNumber(v) == PageNumber(region) + 1 then MappingFor(Address(physical), false)
                    else Walk(s.pages, root, v)
  {
    hide Walk, Open, PageNumber, MappingFor, LeafMapping;
    WindowWord(physical);
    StoreInWindow(s, root, region, 1, LeafEntry(Address(physical), false));
  }

  /** FreeTempMap unmaps the page of one slot and changes nothing else; in slot 0 that page is
      the window itself. */
  lemma FreeTempMapUnmaps(s: State, root: u64, region: u64, pointer: u64)
    requires Open(s, root, region)
    ensures var s' := s.(pages := AfterFreeTempMap(s.pages, root, region, pointer));
            && WellFormed(s', root)
            && (forall v: nat :: Walk(s'.pages, root, v)
                 == if PageNumber(v) == PageNumber(region) + SlotOfPointer(pointer) then Fault
                    else Walk(s.pages, root, v))
            && (Open(s', root, region) <==> SlotOfPointer(pointer) != 0)
  {
    hide Walk, Open, PageNumber, WellFormed, Slot;
    var i := SlotOfPointer(pointer);
    var w := Slot(s.pages, root, region, i);
    StoreInWindow(s, root, region, i, w - w % 2);
    if i == 0 {
      ClosedByFault(s.(pages := AfterFreeTempMap(s.pages, root, region, pointer)), root, region);
    }
  }

  /** The word that TempMap writes, and that it writes nothing else. */
  lemma TempMapWrites(s: State, root: u64, region: u64, physical: u64)
    requires Open(s, root, region)
    ensures OneWord(s.pages, AfterTempMap(s.pages, root, region, physical), Walk(s.pages, root, region).frame, 1,
                    physical / 0x1000 % 0x100_0000_0000 * 0x1000 + 3)
  {
    hide Walk, Open, StoreVirtual, OneWord;
    WholePage(physical / 0x1000 % 0x100_0000_0000);
    assert LeafEntry(Address(physical), false) == physical / 0x1000 % 0x100_0000_0000 * 0x1000 + 3;
    StoreIsOneWord(s, root, region, 1, LeafEntry(Address(physical), false));
  }

  /** FreeTempMap clears bit 0 of the entry of its slot; all its other bits, and all other words of
      memory, stay. */
  lemma FreeTempMapClearsOneBit(s: State, root: u64, region: u64, pointer: u64)
    requires Open(s, root, region)
    ensures var pages' := AfterFreeTempMap(s.pages, root, region, pointer);
            var f, i := Walk(s.pages, root, region).frame, SlotOfPointer(pointer);
            && f in s.pages && f in pages'
            && OneWord(s.pages, pages', f, i, pages'[f][i])
            && forall j: nat :: Bit(pages'[f][i], j) <==> j != 0 && Bit(s.pages[f][i], j)
  {
    hide Walk, Open, StoreVirtual, SlotOfPointer, Slot, Bit;
    var i := SlotOfPointer(pointer);
    var w := Slot(s.pages, root, region, i);
    SlotBelow(pointer);
    StoreIsOneWord(s, root, region, i, w - w % 2);
    var f := Walk(s.pages, root, region).frame;
    var pages' := AfterFreeTempMap(s.pages, root, region, pointer);
    assert f in pages' && pages'[f][i] == w - w % 2 && s.pages[f][i] == w;
    forall j: nat
      ensures Bit(pages'[f][i], j) <==> j != 0 && Bit(s.pages[f][i], j)
    {
      assert w - w % 2 == 2 * (w / 2) + 0;
      BitOfDouble(w / 2, 0, j);
      BitOfHalf(w, j);
    }
  }

  lemma SlotBelow(pointer: u64)
    ensures SlotOfPointer(pointer) < 512
  {
  }

  /** TempMap, then FreeTempMap of its pointer: slot 1 keeps the address and loses the present bit,
      and no other word of memory has changed. */
  lemma MapThenFreeWrites(s: State, root: u64, region: u64, physical: u64)
    requires Open(s, root, region) && PointerForSlot(region, 1) < TWO_64
    ensures var pages1 := AfterTempMap(s.pages, root, region, physical);
            var pages2 := AfterFreeTempMap(pages1, root, region, PointerForSlot(region, 1));
            OneWord(s.pages, pages2, Walk(s.pages, root, region).frame, 1,
                    physical / 0x1000 % 0x100_0000_0000 * 0x1000 + 2)
  {
    hide Walk, Open, StoreVirtual, SlotOfPointer, Slot, PageNumber, AfterTempMap, MappingFor, PointerForSlot;
    OpenAligned(s, root, region);
    var s1 := s.(pages := AfterTempMap(s.pages, root, region, physical));
    TempMapMaps(s, root, region, physical);
    TempMapWrites(s, root, region, physical);
    SlotRoundTrip(region, 1);
    SlotPage(region, 1);
    var w := Slot(s1.pages, root, region, 1);
    StoreIsOneWord(s1, root, region, 1, w - w % 2);
    WholePage(physical / 0x1000 % 0x100_0000_0000);
  }

  lemma WindowWord(physical: u64)
    ensures Or(And(physical, PTE_ADDR_MASK), 3) == LeafEntry(Address(physical), false)
    ensures LeafMapping(LeafEntry(Address(physical), false)) == MappingFor(Address(physical), false)
  {
    hide And, Or, LeafMapping, MappingFor;
    AddressBits(physical);
    LeafEntryMeans(Address(physical), false);
    WholePage(physical / 0x1000 % 0x100_0000_0000);
    OrThree(Address(physical));
  }

  lemma WholePage(a: nat)
    ensures a * 0x1000 / 4 * 4 == a * 0x1000 && a * 0x1000 / 0x1000 * 0x1000 == a * 0x1000
  {
    DivUnique(a * 0x1000, 4, a * 0x400, 0);
    DivUnique(a * 0x1000, 0x1000, a, 0);
  }

  lemma ClosedByFault(s: State, root: u64, region: u64)
    requires Walk(s.pages, root, region) == Fault
    ensures !Open(s, root, region)
  {
  }

  /** The pointer that TempMap returns is 0x8000 bytes into the region, at the page of slot 8,
      while the frame is mapped 0x1000 bytes in. So the pointer reaches the frame exactly when
      slot 8 happened to map that frame already, with whatever flags. */
  lemma ReturnedPointerIsSlotEight(s: State, root: u64, region: u64, physical: u64)
    requires Open(s, root, region)
    ensures var pages' := AfterTempMap(s.pages, root, region, physical);
            var reached := Walk(pages', root, PointerForSlot(region, 1));
            var e := Slot(s.pages, root, region, 8);
            && Walk(pages', root, region + 0x1000) == MappingFor(Address(physical), false)
            && PointerForSlot(region, 1) == region + 8 * 0x1000
            && (reached.Mapped? && reached.frame == Address(physical)
                <==> Present(e) && Address(e) == Address(physical))
  {
    hide Walk, Open, PageNumber, MappingFor, Slot, AfterTempMap, Present, Address;
    OpenAligned(s, root, region);
    TempMapMaps(s, root, region, physical);
    SlotPage(region, 1);
    SlotPage(region, 8);
    SlotTranslates(s, root, region, 8);
  }

  lemma OpenAligned(s: State, root: u64, region: u64)
    requires Open(s, root, region)
    ensures region % 0x20_0000 == 0
  {
  }

  /** TempMap, then FreeTempMap of the pointer that it returned: the page of slot 1 is unmapped,
      and everything else, the window itself included, is as before. */
  lemma MapThenFree(s: State, root: u64, region: u64, physical: u64)
    requires Open(s, root, region) && PointerForSlot(region, 1) < TWO_64
    ensures var s1 := s.(pages := AfterTempMap(s.pages, root, region, physical));
            var s2 := s.(pages := AfterFreeTempMap(s1.pages, root, region, PointerForSlot(region, 1)));
            && Open(s2, root, region)
            && forall v: nat :: Walk(s2.pages, root, v)
                 == if PageNumber(v) == PageNumber(region) + 1 then Fault else Walk(s.pages, root, v)
  {
    hide Walk, Open, PageNumber, MappingFor, AfterTempMap, AfterFreeTempMap, SlotOfPointer;
    OpenAligned(s, root, region);
    TempMapMaps(s, root, region, physical);
    SlotRoundTrip(region, 1);
    var s1 := s.(pages := AfterTempMap(s.pages, root, region, physical));
    FreeTempMapUnmaps(s1, root, region, PointerForSlot(region, 1));
  }

  /** Freed by the address of the page that TempMap did map, instead of by the pointer that it
      returned, the window closes and that page stays mapped. */
  lemma FreeByPageAddress(s: State, root: u64, region: u64)
    requires Open(s, root, region) && region + 0x1000 < TWO_64
    ensures var s' := s.(pages := AfterFreeTempMap(s.pages, root, region, region + 0x1000));
            && !Open(s', root, region)
            && Walk(s'.pages, root, region) == Fault
            && Walk(s'.pages, root, region + 0x1000) == Walk(s.pages, root, region + 0x1000)
  {
    hide Walk, Open, AfterFreeTempMap;
    OpenAligned(s, root, region);
    assert (region + 0x1000) / 0x1000 == region / 0x20_0000 * 512 + 1;
    assert SlotOfPointer(region + 0x1000) == 0;
    SlotPage(region, 1);
    FreeTempMapUnmaps(s, root, region, region + 0x1000);
  }

  // ----- The operations in place -----

  /** What the scan of TempMap ends in: a pointer, NULL, a page fault, or still scanning. */
  datatype Outcome = Spinning | Null | PageFault | Returned(pointer: nat)

  /** What TempMap ends in: it looks at slot 1 only. */
  function TempMapOutcome(pages: map<u64, Page>, root: u64, region: u64): Outcome {
    if !CanLoad(pages, root, region + 8) then PageFault
    else if Present(Slot(pages, root, region, 1)) then Spinning
    else if !CanStore(pages, root, region + 8) then PageFault
    else Returned(PointerForSlot(region, 1))
  }

  class KernelMemory {
    var pages: map<u64, Page>
    const root: u64
    const region: u64

    constructor (pages: map<u64, Page>, root: u64, region: u64)
      ensures this.pages == pages && this.root == root && this.region == region
    {
      this.pages := pages;
      this.root := root;
      this.region := region;
    }

    /** The scan never advances, so it ends at once when slot 1 is free and never otherwise;
        `patience` is the number of rounds that the caller waits. */
    method TempMap(physical: u64, patience: nat) returns (r: Outcome)
      modifies this
      ensures r == TempMapOutcome(old(pages), root, region)
      ensures !CanLoad(old(pages), root, region + 8) ==> r == PageFault
      ensures CanLoad(old(pages), root, region + 8) ==>
                && (r == Spinning <==> Present(Slot(old(pages), root, region, 1)))
                && (r != Spinning ==> r == if CanStore(old(pages), root, region + 8) then Returned(region + 0x8000)
                                          else PageFault)
      ensures pages == if r.Returned? then AfterTempMap(old(pages), root, region, physical) else old(pages)
    {
      hide Walk, LoadVirtual, StoreVirtual, And, Or;
      var i := 1;
      var rounds := 0;
      if !CanLoad(pages, root, region + 8 * i) {
        return PageFault;
      }
      while And(LoadVirtual(pages, root, region + 8 * i), 1) != 0 && rounds < patience
        invariant i == 1
      {
        if i > 511 {
          return Null;
        }
        rounds := rounds + 1;
      }
      EntryForms(LoadVirtual(pages, root, region + 8 * i));
      if And(LoadVirtual(pages, root, region + 8 * i), 1) != 0 {
        return Spinning;
      }
      if i > 511 {
        return Null;
      }
      if !CanStore(pages, root, region + 8 * i) {
        return PageFault;
      }
      WindowWord(physical);
      pages := StoreVirtual(pages, root, region + 8 * i, Or(And(physical, PTE_ADDR_MASK), 3));
      return Returned(region + i * 0x8000);
    }

    method FreeTempMap(pointer: u64) returns (pageFault: bool)
      modifies this
      ensures pageFault <==> !CanStore(old(pages), root, region + 8 * SlotOfPointer(pointer))
      ensures pages == AfterFreeTempMap(old(pages), root, region, pointer)
    {
      hide Walk, LoadVirtual, And, Shr;
      IndexForms(pointer);
      var i := And(Shr(pointer, 12), 0x1ff) / 8;
      if !CanStore(pages, root, region + 8 * i) {
        return true;
      }
      ClearPresentBit(LoadVirtual(pages, root, region + 8 * i));
      pages := StoreVirtual(pages, root, region + 8 * i, And(LoadVirtual(pages, root, region + 8 * i), NOT_1));
      return false;
    }
  }

  /** In an open window TempMap gets its pointer exactly when slot 1 is free, and otherwise scans
      for ever; FreeTempMap always gets through. */
  lemma OpenOutcomes(s: State, root: u64, region: u64, pointer: u64)
    requires Open(s, root, region)
    ensures TempMapOutcome(s.pages, root, region)
            == if Present(Slot(s.pages, root, region, 1)) then Spinning else Returned(PointerForSlot(region, 1))
    ensures CanStore(s.pages, root, region + 8 * SlotOfPointer(pointer))
  {
    hide Open, CanLoad, CanStore, Slot, Present;
    OpenNeverFaults(s, root, region, 1);
    OpenNeverFaults(s, root, region, SlotOfPointer(pointer));
  }

  /** The hang is two calls away: after boot the first TempMap takes slot 1, and the second one
      scans for ever although the slots 2 to 511 are all free. */
  lemma SecondTempMapHangs(s: State, root: u64, b: Parameters, physical: u64)
    requires PagingRuns.Fresh(s, root) && b.Fits() && PagingRuns.AllSucceed(s, root, b.Ops())
    ensures var pages, w := Run(s, root, b.Ops()).pages, b.WindowStart();
            var pages' := AfterTempMap(pages, root, w, physical);
            && TempMapOutcome(pages, root, w) == Returned(PointerForSlot(w, 1))
            && TempMapOutcome(pages', root, w) == Spinning
            && forall i | 2 <= i < 512 :: !Present(Slot(pages', root, w, i))
  {
    hide Run, PagingRuns.Fresh, PagingRuns.AllSucceed, Walk, AfterTempMap, Slot, Open, PageNumber, SelfMapped;
    hide Parameters.Ops, Parameters.WindowStart, Parameters.Fits, TempMapOutcome, WellFormed;
    var k, w := State(Run(s, root, b.Ops()).pages, []), b.WindowStart();
    var k' := k.(pages := AfterTempMap(k.pages, root, w, physical));
    BootOpensTheWindow(s, root, b);
    WindowIsOpen(s, root, b);
    TempMapMaps(k, root, w, physical);
    OpenOutcomes(k, root, w, 0);
    OpenOutcomes(k', root, w, 0);
    forall i | 1 <= i < 512
      ensures Present(Slot(k'.pages, root, w, i)) <==> i == 1
    {
      SlotPage(w, i);
      SlotTranslates(k', root, w, i);
    }
  }

  /** The kernel starts with a usable window: what the boot stub hands over is open, and slot 1
      is free. */
  lemma BootOpensTheWindow(s: State, root: u64, b: Parameters)
    requires PagingRuns.Fresh(s, root) && b.Fits() && PagingRuns.AllSucceed(s, root, b.Ops())
    ensures var k := State(Run(s, root, b.Ops()).pages, []);
            Open(k, root, b.WindowStart()) && !Present(Slot(k.pages, root, b.WindowStart(), 1))
  {
    hide Run, PagingRuns.Fresh, PagingRuns.AllSucceed, Walk, Slot, WellFormed, WalkDepth, ServingTable, Parameters.Ops;
    var s' := Run(s, root, b.Ops());
    WindowIsOpen(s, root, b);
    NoMoreRequests(s', root);
    SlotTranslates(State(s'.pages, []), root, b.WindowStart(), 1);
    assert Walk(s'.pages, root, b.WindowStart() + 1 * 0x1000) == Fault;
  }

  /** Right after boot slot 8 is free as well: the first pointer that TempMap returns faults. */
  lemma FirstPointerFaults(s: State, root: u64, b: Parameters, physical: u64)
    requires PagingRuns.Fresh(s, root) && b.Fits() && PagingRuns.AllSucceed(s, root, b.Ops())
    ensures var pages' := AfterTempMap(Run(s, root, b.Ops()).pages, root, b.WindowStart(), physical);
            && Walk(pages', root, b.WindowStart() + 0x1000) == MappingFor(Address(physical), false)
            && Walk(pages', root, PointerForSlot(b.WindowStart(), 1)) == Fault
  {
    hide Run, PagingRuns.Fresh, PagingRuns.AllSucceed, Walk, AfterTempMap, WellFormed, SelfMapped, Parameters.Ops;
    hide Open, PageNumber, MappingFor, Parameters.WindowStart, Parameters.Fits;
    var k, w := State(Run(s, root, b.Ops()).pages, []), b.WindowStart();
    BootOpensTheWindow(s, root, b);
    WindowIsOpen(s, root, b);
    TempMapMaps(k, root, w, physical);
    SlotPage(w, 1);
    SlotPage(w, 8);
    assert PointerForSlot(w, 1) == w + 8 * 0x1000;
  }

  lemma NoMoreRequests(s: State, root: u64)
    requires WellFormed(s, root)
    ensures WellFormed(State(s.pages, []), root)
  {
    var tree :| Good(s, root, tree);
    assert Good(State(s.pages, []), root, tree);
  }
}
