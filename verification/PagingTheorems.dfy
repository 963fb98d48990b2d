/** What the operations of the boot stub mean: the tables are a finite map from pages to
    mappings, each operation is one update of that map or none, and each costs exactly the
    tables that its path was missing. */
module PagingTheorems {
  import opened Bits
  import opened PagingSpec
  import opened PagingProofs

  /** The tables under `root` are a tree, and the firmware keeps its promises. */
  ghost predicate WellFormed(s: State, root: u64) {
    exists tree :: Good(s, root, tree)
  }

  /** All translations of a root, as a map from page numbers. */
  ghost function View(pages: map<u64, Page>, root: u64): map<nat, Mapping> {
    map p: nat | p < 0x10_0000_0000 && Walk(pages, root, p * 0x1000) != Fault :: Walk(pages, root, p * 0x1000)
  }

  function Lookup(m: map<nat, Mapping>, p: nat): Mapping {
    if p in m then m[p] else Fault
  }

  /** What a mapping made for `phys` is: its frame, writable, present, perhaps with bit 4, and
      with whatever the caller left in the bits above the address field. */
  function MappingFor(phys: u64, cached: bool): Mapping {
    Mapped(phys / 0x1000 % 0x100_0000_0000 * 0x1000,
           phys / 0x10_0000_0000_0000 * 0x10_0000_0000_0000 + 3 + if cached then 16 else 0, true)
  }

  lemma LeafEntryMeans(phys: u64, cached: bool)
    ensures LeafMapping(LeafEntry(phys, cached)) == MappingFor(phys, cached)
  {
    var a := phys / 0x1000;
    var l := 3 + if cached then 16 else 0;
    EntryFields(a, l);
    HighBits(phys);
    HighBits(a * 0x1000 + l);
  }

  lemma HighBits(x: nat)
    ensures x / 0x10_0000_0000_0000 == x / 0x1000 / 0x100_0000_0000
  {
    DivByParts(x, 0x1000, 0x100_0000_0000);
  }

  lemma EntryFields(a: nat, l: nat)
    requires l == 3 || l == 19
    ensures var e := a * 0x1000 + l;
            e / 0x1000 == a && e % 0x1000 == l && Present(e) && Writable(e)
  {
    var e := a * 0x1000 + l;
    DivUnique(e, 0x1000, a, l);
    DivUnique(e, 2, a * 0x800 + l / 2, 1);
    DivUnique(a * 0x800 + l / 2, 2, a * 0x400 + l / 4, 1);
  }

  // ----- The walk is the map -----

  /** Whatever is in memory, large pages included, the translation of an address depends on its
      page number alone. */
  lemma WalkIsTheMap(pages: map<u64, Page>, root: u64, virt: nat)
    ensures Walk(pages, root, virt) == Lookup(View(pages, root), PageNumber(virt))
  {
    hide Walk, PageNumber;
    var p := PageNumber(virt);
    PageOfPage(p);
    WalkOfPage(pages, root, virt, p * 0x1000);
  }

  lemma PageOfPage(p: nat)
    requires p < 0x10_0000_0000
    ensures PageNumber(p * 0x1000) == p
  {
  }

  lemma WalkOfPage(pages: map<u64, Page>, root: u64, v: nat, w: nat)
    requires PageNumber(v) == PageNumber(w)
    ensures Walk(pages, root, v) == Walk(pages, root, w)
  {
    hide PageNumber, EntryPML4, EntryPDPT, EntryPD, EntryPT, Load, Present, Address, LargePage, Writable, NotAddress;
    IndicesDetermineThePage(v, w);
    PageInLargePage(v);
    PageInLargePage(w);
  }

  /** Which page of a large page an address lies in. */
  lemma PageInLargePage(v: nat)
    ensures v % 0x4000_0000 / 0x1000 == PageNumber(v) % 0x4_0000
    ensures v % 0x20_0000 / 0x1000 == PageNumber(v) % 512
  {
    var q := v / 0x1000;
    DivByParts(v, 0x1000, 0x4_0000);
    DivByParts(v, 0x1000, 512);
    DivByParts(q, 0x4_0000, 0x4_0000);
    DivByParts(q, 512, 0x800_0000);
  }

  lemma ViewIsTheTree(pages: map<u64, Page>, root: u64, tree: Tree, p: nat)
    requires Forms(pages, root, tree) && p < 0x10_0000_0000
    ensures Lookup(View(pages, root), p) == LeafMapping(LeafOf(pages, tree, p))
  {
    assert PageNumber(p * 0x1000) == p;
    WalkReadsTheTree(pages, root, tree, p * 0x1000);
  }

  lemma SameMap(m: map<nat, Mapping>, m': map<nat, Mapping>)
    requires forall p | p in m :: m[p] != Fault
    requires forall p | p in m' :: m'[p] != Fault
    requires forall p: nat :: Lookup(m, p) == Lookup(m', p)
    ensures m == m'
  {
    forall p: nat
      ensures p in m <==> p in m'
      ensures p in m ==> m[p] == m'[p]
    {
      assert Lookup(m, p) == Lookup(m', p);
    }
  }

  lemma ViewsAgree(pages: map<u64, Page>, pages': map<u64, Page>, root: u64, tree: Tree, tree': Tree)
    requires Forms(pages, root, tree) && Forms(pages', root, tree')
    requires SameLeaves(pages, tree, pages', tree')
    ensures View(pages', root) == View(pages, root)
  {
    forall p: nat
      ensures Lookup(View(pages', root), p) == Lookup(View(pages, root), p)
    {
      if p < 0x10_0000_0000 {
        ViewIsTheTree(pages, root, tree, p);
        ViewIsTheTree(pages', root, tree', p);
        assert LeafOf(pages', tree', p) == LeafOf(pages, tree, p);
      }
    }
    SameMap(View(pages', root), View(pages, root));
  }

  // ----- One operation -----

  lemma EnterUpdates(s: State, root: u64, tree: Tree, virt: u64, word: u64 -> u64, m: Mapping)
    requires Good(s, root, tree)
    requires var g := Enter(s, root, virt, word);
             !IsError(g.status) ==> m == LeafMapping(word(g.table)) && m != Fault
    ensures var g := Enter(s, root, virt, word);
            && Good(g.state, root, GrownPath(s, root, tree, virt))
            && View(g.state.pages, root)
               == (if IsError(g.status) then View(s.pages, root) else View(s.pages, root)[PageNumber(virt) := m])
  {
    EnterKeeps(s, root, tree, virt, word);
    var g := Enter(s, root, virt, word);
    var tree' := GrownPath(s, root, tree, virt);
    if IsError(g.status) {
      ViewsAgree(s.pages, g.state.pages, root, tree, tree');
    } else {
      var q := PageNumber(virt);
      var v, v' := View(s.pages, root)[q := m], View(g.state.pages, root);
      forall p: nat
        ensures Lookup(v', p) == Lookup(v, p)
      {
        if p < 0x10_0000_0000 {
          ViewIsTheTree(s.pages, root, tree, p);
          ViewIsTheTree(g.state.pages, root, tree', p);
          assert LeafOf(g.state.pages, tree', p) == if p == q then word(g.table) else LeafOf(s.pages, tree, p);
        }
      }
      SameMap(v', v);
    }
  }

  /** MMap is one update of the map of translations, or, when it reports an error, none. */
  lemma MMapRefines(s: State, root: u64, phys: u64, virt: u64, cached: bool)
    requires WellFormed(s, root)
    ensures var g := MMap(s, root, phys, virt, cached);
            && WellFormed(g.state, root)
            && (g.status == EFI_SUCCESS || IsError(g.status))
            && View(g.state.pages, root)
               == (if IsError(g.status) then View(s.pages, root)
                   else View(s.pages, root)[PageNumber(virt) := MappingFor(phys, cached)])
  {
    var tree :| Good(s, root, tree);
    LeafEntryMeans(phys, cached);
    EnterKeeps(s, root, tree, virt, _ => LeafEntry(phys, cached));
    EnterUpdates(s, root, tree, virt, _ => LeafEntry(phys, cached), MappingFor(phys, cached));
  }

  /** The page table that the processor reaches for an address, 0 when the walk stops before. */
  function ServingTable(pages: map<u64, Page>, root: u64, virt: nat): u64 {
    var e4 := Load(pages, root, EntryPML4(virt));
    if !Present(e4) then 0 else
    var e3 := Load(pages, Address(e4), EntryPDPT(virt));
    if !Present(e3) then 0 else
    var e2 := Load(pages, Address(e3), EntryPD(virt));
    if !Present(e2) then 0 else Address(e2)
  }

  /** How many tables below the root the processor reaches for an address. */
  function WalkDepth(pages: map<u64, Page>, root: u64, virt: nat): nat {
    var e4 := Load(pages, root, EntryPML4(virt));
    if !Present(e4) then 0 else
    var e3 := Load(pages, Address(e4), EntryPDPT(virt));
    if !Present(e3) then 1 else
    var e2 := Load(pages, Address(e3), EntryPD(virt));
    if !Present(e2) then 2 else 3
  }

  lemma WalkDescends(pages: map<u64, Page>, root: u64, tree: Tree, virt: nat)
    requires Forms(pages, root, tree)
    ensures var p := PageNumber(virt);
            && WalkDepth(pages, root, virt) == 3 - Missing(tree, p)
            && (Serving(p, 3) in tree ==>
                 WalkDepth(pages, root, virt) == 3 && ServingTable(pages, root, virt) == tree[Serving(p, 3)])
  {
    var p := PageNumber(virt);
    ServingPath(virt);
    ChildParent(Serving(p, 1), EntryPDPT(virt));
    ChildParent(Serving(p, 2), EntryPD(virt));
    WalkStep(pages, root, tree, ROOT, EntryPML4(virt));
    if Serving(p, 1) in tree {
      WalkStep(pages, root, tree, Serving(p, 1), EntryPDPT(virt));
      if Serving(p, 2) in tree {
        WalkStep(pages, root, tree, Serving(p, 2), EntryPD(virt));
      }
    }
  }

  /** MakeTempRegion maps the very page table that serves the address at that address. */
  lemma MakeTempRegionRefines(s: State, root: u64, virt: u64)
    requires WellFormed(s, root)
    ensures var g := MakeTempRegion(s, root, virt);
            && WellFormed(g.state, root)
            && (g.status == EFI_SUCCESS || IsError(g.status))
            && (if IsError(g.status) then View(g.state.pages, root) == View(s.pages, root)
                else
                  var pt := ServingTable(g.state.pages, root, virt);
                  && WalkDepth(g.state.pages, root, virt) == 3
                  && View(g.state.pages, root) == View(s.pages, root)[PageNumber(virt) := Mapped(pt, 3, true)])
  {
    var tree :| Good(s, root, tree);
    EnterKeeps(s, root, tree, virt, pt => LeafEntry(pt, false));
    var g := MakeTempRegion(s, root, virt);
    var tree' := GrownPath(s, root, tree, virt);
    WalkDescends(g.state.pages, root, tree', virt);
    if !IsError(g.status) {
      LeafEntryMeans(g.table, false);
      FrameMapping(g.table);
    }
    EnterUpdates(s, root, tree, virt, pt => LeafEntry(pt, false), Mapped(g.table, 3, true));
  }

  lemma FrameMapping(t: u64)
    requires IsFrame(t)
    ensures MappingFor(t, false) == Mapped(t, 3, true)
  {
  }

  // ----- The self-mapped window -----

  /** The window of `virt` is open: `virt` translates to the page table that serves it. */
  ghost predicate SelfMapped(pages: map<u64, Page>, root: u64, virt: nat) {
    && WalkDepth(pages, root, virt) == 3
    && Walk(pages, root, virt).Mapped?
    && Walk(pages, root, virt).frame == ServingTable(pages, root, virt)
  }

  /** A store of word i of the page at `virt`, which the processor carries out in the frame
      that `virt` translates to, changes the translation of slot i of the window and nothing
      else. */
  lemma WindowStore(s: State, root: u64, virt: nat, i: nat, w: u64)
    requires WellFormed(s, root) && SelfMapped(s.pages, root, virt) && i < 512
    ensures var frame := Walk(s.pages, root, virt).frame;
            var slot := PageNumber(virt) / 512 * 512 + i;
            var pages' := Store(s.pages, frame, i, w);
            && WellFormed(s.(pages := pages'), root)
            && WalkDepth(pages', root, virt) == 3 && ServingTable(pages', root, virt) == frame
            && forall v: nat :: Walk(pages', root, v)
                 == if PageNumber(v) == slot then LeafMapping(w) else Walk(s.pages, root, v)
  {
    hide Walk, WalkDepth, ServingTable, Forms, PageNumber;
    var tree :| Good(s, root, tree);
    SelfMappedTable(s, root, tree, virt);
    SlotStore(s, root, tree, PageNumber(virt), i, w);
    WalkDescends(Store(s.pages, Walk(s.pages, root, virt).frame, i, w), root, tree, virt);
  }

  /** Word i of the window is the entry that translates slot i. */
  lemma WindowLoad(s: State, root: u64, virt: nat, i: nat, v: nat)
    requires WellFormed(s, root) && SelfMapped(s.pages, root, virt) && i < 512
    requires PageNumber(v) == PageNumber(virt) / 512 * 512 + i
    ensures Walk(s.pages, root, v) == LeafMapping(Load(s.pages, Walk(s.pages, root, virt).frame, i))
  {
    hide Walk, WalkDepth, ServingTable, Forms, PageNumber;
    var tree :| Good(s, root, tree);
    SelfMappedTable(s, root, tree, virt);
    SlotOfWindow(PageNumber(virt), i);
    WalkReadsTheTree(s.pages, root, tree, v);
  }

  lemma SelfMappedTable(s: State, root: u64, tree: Tree, virt: nat)
    requires Good(s, root, tree) && SelfMapped(s.pages, root, virt)
    ensures Serving(PageNumber(virt), 3) in tree
    ensures Walk(s.pages, root, virt).frame == tree[Serving(PageNumber(virt), 3)]
  {
    WalkDescends(s.pages, root, tree, virt);
  }

  lemma SlotStore(s: State, root: u64, tree: Tree, p: nat, i: nat, w: u64)
    requires Good(s, root, tree) && p < 0x10_0000_0000 && Serving(p, 3) in tree && i < 512
    ensures var pages' := Store(s.pages, tree[Serving(p, 3)], i, w);
            && Good(s.(pages := pages'), root, tree)
            && forall v: nat :: Walk(pages', root, v)
                 == if PageNumber(v) == p / 512 * 512 + i then LeafMapping(w) else Walk(s.pages, root, v)
  {
    SlotOfWindow(p, i);
    StoreMaps(s, root, tree, p / 512 * 512 + i, w);
  }

  lemma SlotOfWindow(p: nat, i: nat)
    requires p < 0x10_0000_0000 && i < 512
    ensures var slot := p / 512 * 512 + i;
            slot < 0x10_0000_0000 && slot % 512 == i && Serving(slot, 3) == Serving(p, 3)
  {
  }

  lemma StoreMaps(s: State, root: u64, tree: Tree, q: nat, w: u64)
    requires Good(s, root, tree) && q < 0x10_0000_0000 && Serving(q, 3) in tree
    ensures var pages' := Store(s.pages, tree[Serving(q, 3)], q % 512, w);
            && Good(s.(pages := pages'), root, tree)
            && forall v: nat :: Walk(pages', root, v)
                 == if PageNumber(v) == q then LeafMapping(w) else Walk(s.pages, root, v)
  {
    var pages' := Store(s.pages, tree[Serving(q, 3)], q % 512, w);
    LeafStoreForms(s.pages, root, tree, Serving(q, 3), q % 512, w);
    LeafStoreEffect(s.pages, root, tree, q, w);
    forall v: nat
      ensures Walk(pages', root, v) == if PageNumber(v) == q then LeafMapping(w) else Walk(s.pages, root, v)
    {
      WalkReadsTheTree(pages', root, tree, v);
      WalkReadsTheTree(s.pages, root, tree, v);
    }
  }

  // ----- The tree is determined by memory -----

  lemma {:induction false} NodeUnique(pages: map<u64, Page>, root: u64, t: Tree, u: Tree, n: Node)
    requires Forms(pages, root, t) && Forms(pages, root, u) && n in t
    ensures n in u && u[n] == t[n]
    decreases n.depth
  {
    if n.depth == 0 {
      assert n == ROOT;
    } else {
      var m, e := Parent(n), n.prefix % 512;
      assert n == Child(m, e);
      NodeUnique(pages, root, t, u, m);
      WalkStep(pages, root, t, m, e);
      WalkStep(pages, root, u, m, e);
    }
  }

  lemma TreeUnique(pages: map<u64, Page>, root: u64, t: Tree, u: Tree)
    requires Forms(pages, root, t) && Forms(pages, root, u)
    ensures t == u
  {
    forall n | n in t
      ensures n in u && u[n] == t[n]
    {
      NodeUnique(pages, root, t, u, n);
    }
    forall n | n in u
      ensures n in t
    {
      NodeUnique(pages, root, u, t, n);
    }
  }

  ghost function TreeOf(s: State, root: u64): (tree: Tree)
    requires WellFormed(s, root)
    ensures Good(s, root, tree)
  {
    var tree :| Good(s, root, tree);
    tree
  }
}
