/** The tables built by the boot stub form a tree, and the tree is a finite map from pages to
    leaf entries: the proofs about single operations. */
module PagingProofs {
  import opened Bits
  import opened PagingSpec

  // ----- The tree of tables -----

  /** A table, named by the page-number prefix that leads to it: depth 0 is the root, depth 3
      a page table. */
  datatype Node = Node(depth: nat, prefix: nat)

  const ROOT := Node(0, 0)

  type Tree = map<Node, u64>

  function Child(n: Node, entry: nat): Node {
    Node(n.depth + 1, n.prefix * 512 + entry)
  }

  function Parent(n: Node): Node
    requires n.depth > 0
  {
    Node(n.depth - 1, n.prefix / 512)
  }

  /** How many tables a level can have. */
  function LevelSize(depth: nat): nat
    requires depth <= 3
  {
    match depth
    case 0 => 1
    case 1 => 512
    case 2 => 0x4_0000
    case 3 => 0x800_0000
  }

  /** The table of a level that serves page p. */
  function Serving(p: nat, depth: nat): Node
    requires depth <= 3
  {
    match depth
    case 0 => ROOT
    case 1 => Node(1, p / 0x800_0000)
    case 2 => Node(2, p / 0x4_0000)
    case 3 => Node(3, p / 512)
  }

  /** The entry that leads to a table, or 0 where there is none. */
  function Link(tree: Tree, n: Node): nat {
    if n in tree then tree[n] as nat + 3 else 0
  }

  ghost predicate IsFrame(t: u64) {
    t % 0x1000 == 0 && t < 0x10_0000_0000_0000
  }

  ghost predicate IsNode(n: Node) {
    n.depth <= 3 && n.prefix < LevelSize(n.depth)
  }

  /** The present entries from `root` down form exactly `tree`: every table is a page-aligned
      frame with one place in the tree, and every entry above the last level is either 0 or
      the address of the child table with the bits 0 and 1 set. */
  ghost predicate Forms(pages: map<u64, Page>, root: u64, tree: Tree) {
    && ROOT in tree && tree[ROOT] == root
    && (forall n | n in tree :: IsNode(n) && tree[n] in pages && IsFrame(tree[n]))
    && (forall n, m | n in tree && m in tree && tree[n] == tree[m] :: n == m)
    && (forall n | n in tree && n.depth > 0 :: Parent(n) in tree)
    && (forall n, e | n in tree && n.depth < 3 && 0 <= e < 512 :: pages[tree[n]][e] == Link(tree, Child(n, e)))
  }

  /** What section 7.2 of the UEFI Specification promises of AllocatePages: a failure is an
      error code, and a granted page is an aligned frame that is not in use. */
  ghost predicate Honest(s: State) {
    && (forall i | 0 <= i < |s.supply| && s.supply[i].Refuse? :: IsError(s.supply[i].status))
    && (forall i | 0 <= i < |s.supply| && s.supply[i].Grant? :: IsFrame(s.supply[i].base) && s.supply[i].base !in s.pages)
    && (forall i, j | 0 <= i < j < |s.supply| && s.supply[i].Grant? && s.supply[j].Grant? ::
         s.supply[i].base != s.supply[j].base)
  }

  /** The leaf entry of page p, 0 when there is no page table for it. */
  ghost function LeafOf(pages: map<u64, Page>, tree: Tree, p: nat): u64 {
    if Serving(p, 3) in tree then Load(pages, tree[Serving(p, 3)], p % 512) else 0
  }

  ghost predicate SameLeaves(pages: map<u64, Page>, tree: Tree, pages': map<u64, Page>, tree': Tree) {
    forall p: nat | p < 0x10_0000_0000 :: LeafOf(pages', tree', p) == LeafOf(pages, tree, p)
  }

  // ----- Indices -----

  lemma Indices(virt: nat)
    ensures var p := PageNumber(virt);
            && EntryPML4(virt) == p / 0x800_0000
            && EntryPDPT(virt) == p / 0x4_0000 % 512
            && EntryPD(virt) == p / 512 % 512
            && EntryPT(virt) == p % 512
  {
    var q := virt / 0x1000;
    DivByParts(virt, 0x1000, 512);
    DivByParts(virt, 0x1000, 0x4_0000);
    DivByParts(virt, 0x1000, 0x800_0000);
    DivByParts(q, 0x800_0000, 512);
    DivByParts(q, 0x4_0000, 0x4_0000);
    DivByParts(q / 0x4_0000, 512, 512);
    DivByParts(q, 512, 0x800_0000);
    DivByParts(q / 512, 512, 0x4_0000);
    DivByParts(q, 512, 512);
  }

  /** The four table indices and bits 12 to 47 of the address determine each other. */
  lemma IndicesDetermineThePage(v: nat, w: nat)
    ensures PageNumber(v) == PageNumber(w) <==>
            && EntryPML4(v) == EntryPML4(w) && EntryPDPT(v) == EntryPDPT(w)
            && EntryPD(v) == EntryPD(w) && EntryPT(v) == EntryPT(w)
  {
    Indices(v);
    Indices(w);
    Digits(PageNumber(v));
    Digits(PageNumber(w));
  }

  lemma Digits(p: nat)
    ensures p / 512 == p / 0x4_0000 * 512 + p / 512 % 512
    ensures p / 0x4_0000 == p / 0x800_0000 * 512 + p / 0x4_0000 % 512
  {
    DivByParts(p, 512, 512);
    DivByParts(p, 0x4_0000, 512);
  }

  lemma ServingPath(virt: nat)
    ensures var p := PageNumber(virt);
            && Serving(p, 1) == Child(ROOT, EntryPML4(virt))
            && Serving(p, 2) == Child(Serving(p, 1), EntryPDPT(virt))
            && Serving(p, 3) == Child(Serving(p, 2), EntryPD(virt))
  {
    Indices(virt);
    Digits(PageNumber(virt));
  }

  // ----- Entries -----

  lemma LinkEntry(t: u64)
    requires IsFrame(t)
    ensures t + 3 < TWO_64
    ensures Present(t + 3) && Address(t + 3) == t && Writable(t + 3) && !LargePage(t + 3)
    ensures MadePresent(t) == t + 3 && MadePresent(t + 3) == t + 3
  {
    hide Present, Address, Writable, LargePage, MadePresent;
    FrameNumber(t);
    LinkFlags(t / 0x1000);
    LinkAddress(t / 0x1000);
    LinkMark(t / 0x1000);
  }

  lemma FrameNumber(t: u64)
    requires IsFrame(t)
    ensures t == 0x1000 * (t / 0x1000) && t / 0x1000 < 0x100_0000_0000
  {
  }

  lemma LinkFlags(q: nat)
    ensures var e := 0x1000 * q + 3;
            Present(e) && Writable(e) && !LargePage(e)
  {
    var e := 0x1000 * q + 3;
    DivUnique(e, 2, 0x800 * q + 1, 1);
    DivUnique(0x800 * q + 1, 2, 0x400 * q, 1);
    DivUnique(e, 0x80, 0x20 * q, 3);
    DivUnique(0x20 * q, 2, 0x10 * q, 0);
  }

  lemma LinkAddress(q: nat)
    requires q < 0x100_0000_0000
    ensures 0x1000 * q + 3 < TWO_64 && Address(0x1000 * q + 3) == 0x1000 * q
  {
    assert (0x1000 * q + 3) / 0x1000 == q;
    SmallModulus(q, 0x100_0000_0000);
  }

  lemma LinkMark(q: nat)
    requires q < 0x100_0000_0000
    ensures 0x1000 * q + 3 < TWO_64
    ensures MadePresent(0x1000 * q) == 0x1000 * q + 3 && MadePresent(0x1000 * q + 3) == 0x1000 * q + 3
  {
    assert 0x1000 * q / 4 == 0x400 * q && (0x1000 * q + 3) / 4 == 0x400 * q;
  }

  lemma ChildParent(n: Node, e: nat)
    requires e < 512
    ensures Parent(Child(n, e)) == n
    ensures IsNode(n) && n.depth < 3 ==> IsNode(Child(n, e))
  {
  }

  lemma ChildrenDiffer(n: Node, e: nat, m: Node, f: nat)
    requires e < 512 && f < 512 && Child(n, e) == Child(m, f)
    ensures n == m && e == f
  {
    ChildParent(n, e);
    ChildParent(m, f);
  }

  // ----- The walk reads the tree -----

  /** What the processor makes of a leaf entry when all levels above allow writing. */
  function LeafMapping(e: u64): Mapping {
    if Present(e) then Mapped(Address(e), NotAddress(e), Writable(e)) else Fault
  }

  lemma WalkReadsTheTree(pages: map<u64, Page>, root: u64, tree: Tree, virt: nat)
    requires Forms(pages, root, tree)
    ensures Walk(pages, root, virt) == LeafMapping(LeafOf(pages, tree, PageNumber(virt)))
  {
    hide Present, Address, Writable, LargePage, NotAddress, MadePresent, PageNumber, IsNode, IsFrame;
    var p := PageNumber(virt);
    ServingPath(virt);
    Indices(virt);
    WalkStep(pages, root, tree, ROOT, EntryPML4(virt));
    if Serving(p, 1) in tree {
      WalkStep(pages, root, tree, Serving(p, 1), EntryPDPT(virt));
      if Serving(p, 2) in tree {
        WalkStep(pages, root, tree, Serving(p, 2), EntryPD(virt));
      } else {
        assert Parent(Serving(p, 3)) == Serving(p, 2) by { ChildParent(Serving(p, 2), EntryPD(virt)); }
      }
    } else {
      assert Parent(Serving(p, 2)) == Serving(p, 1) by { ChildParent(Serving(p, 1), EntryPDPT(virt)); }
      assert Parent(Serving(p, 3)) == Serving(p, 2) by { ChildParent(Serving(p, 2), EntryPD(virt)); }
    }
  }

  lemma WalkStep(pages: map<u64, Page>, root: u64, tree: Tree, n: Node, e: nat)
    requires Forms(pages, root, tree) && n in tree && n.depth < 3 && e < 512
    ensures var w := Load(pages, tree[n], e);
            if Child(n, e) in tree
            then Present(w) && Address(w) == tree[Child(n, e)] && Writable(w) && !LargePage(w)
                 && w == tree[Child(n, e)] as nat + 3 && MadePresent(w) == w
            else w == 0 && !Present(w)
  {
    hide Present, Address, Writable, LargePage, MadePresent, Child, LevelSize, Parent;
    ZeroIsAbsent();
    assert pages[tree[n]][e] == Link(tree, Child(n, e));
    if Child(n, e) in tree {
      LinkEntry(tree[Child(n, e)]);
    }
  }

  lemma ZeroIsAbsent()
    ensures !Present(0)
  {
  }

  // ----- One level -----

  /** The tree after a level was entered: it has one table more when one had to be made. */
  function Grown(tree: Tree, n: Node, e: nat, g: Outcome): Tree {
    if IsError(g.status) || Child(n, e) in tree then tree else tree[Child(n, e) := g.table]
  }

  lemma FrameIsSmall(t: u64)
    requires IsFrame(t)
    ensures t as nat + 3 < TWO_64
  {
  }

  lemma AddTable(pages: map<u64, Page>, root: u64, tree: Tree, n: Node, e: nat, base: u64)
    requires Forms(pages, root, tree) && n in tree && n.depth < 3 && e < 512 && Child(n, e) !in tree
    requires IsFrame(base) && base !in pages
    ensures base as nat + 3 < TWO_64
    ensures var pages' := Store(pages[base := Zeros(512)], tree[n], e, base as nat + 3);
            Forms(pages', root, tree[Child(n, e) := base])
            && |pages'| == |pages| + 1
            && SameLeaves(pages, tree, pages', tree[Child(n, e) := base])
  {
    hide SameLeaves, LeafOf, Serving, IsFrame, Link, LevelSize;
    FrameIsSmall(base);
    var c := Child(n, e);
    var tree' := tree[c := base];
    var pages' := Store(pages[base := Zeros(512)], tree[n], e, base as nat + 3);
    ChildParent(n, e);
    assert pages'.Keys == pages.Keys + {base};
    AddTableEntries(pages, root, tree, n, e, base);
    AddTableLeaves(pages, root, tree, n, e, base);
  }

  lemma AddTableEntries(pages: map<u64, Page>, root: u64, tree: Tree, n: Node, e: nat, base: u64)
    requires Forms(pages, root, tree) && n in tree && n.depth < 3 && e < 512 && Child(n, e) !in tree
    requires base !in pages && base as nat + 3 < TWO_64
    ensures var tree' := tree[Child(n, e) := base];
            var pages' := Store(pages[base := Zeros(512)], tree[n], e, base as nat + 3);
            forall m, f | m in tree' && m.depth < 3 && 0 <= f < 512 ::
              tree'[m] in pages' && pages'[tree'[m]][f] == Link(tree', Child(m, f))
  {
    hide IsFrame, IsNode;
    var c := Child(n, e);
    var tree' := tree[c := base];
    var pages' := Store(pages[base := Zeros(512)], tree[n], e, base as nat + 3);
    ChildParent(n, e);
    forall m, f | m in tree' && m.depth < 3 && 0 <= f < 512
      ensures tree'[m] in pages' && pages'[tree'[m]][f] == Link(tree', Child(m, f))
    {
      ChildParent(m, f);
      if m != n && Child(m, f) == c {
        ChildrenDiffer(m, f, n, e);
      }
      if m in tree {
        assert pages[tree[m]][f] == Link(tree, Child(m, f));
        if m == n && f != e && Child(m, f) == c {
          ChildrenDiffer(m, f, n, e);
        }
      }
    }
  }

  lemma AddTableLeaves(pages: map<u64, Page>, root: u64, tree: Tree, n: Node, e: nat, base: u64)
    requires Forms(pages, root, tree) && n in tree && n.depth < 3 && e < 512 && Child(n, e) !in tree
    requires base !in pages && base as nat + 3 < TWO_64
    ensures var pages' := Store(pages[base := Zeros(512)], tree[n], e, base as nat + 3);
            SameLeaves(pages, tree, pages', tree[Child(n, e) := base])
  {
    var tree' := tree[Child(n, e) := base];
    var pages' := Store(pages[base := Zeros(512)], tree[n], e, base as nat + 3);
    forall p: nat | p < 0x10_0000_0000
      ensures LeafOf(pages', tree', p) == LeafOf(pages, tree, p)
    {
      if Serving(p, 3) in tree {
        assert tree[Serving(p, 3)] != tree[n];
      }
    }
  }

  ghost predicate GrowsBy(tree: Tree, tree': Tree, n: Node, failed: bool) {
    if failed then tree' == tree && n !in tree
    else
      && (forall m :: m in tree' <==> m in tree || m == n)
      && |tree'| == |tree| + if n in tree then 0 else 1
  }

  ghost predicate GrowsByPath(tree: Tree, tree': Tree, p: nat) {
    forall m :: m in tree' <==> m in tree || m == Serving(p, 1) || m == Serving(p, 2) || m == Serving(p, 3)
  }

  /** A state whose tables form `tree`, with a firmware that keeps its promises. */
  ghost predicate Good(s: State, root: u64, tree: Tree) {
    Forms(s.pages, root, tree) && Honest(s)
  }

  lemma AllocationIsHonest(s: State)
    requires Honest(s)
    ensures var a := AllocatePages(s);
            && Honest(a.state)
            && (if IsError(a.status) then a.state.pages == s.pages
                else a.status == EFI_SUCCESS && IsFrame(a.table) && a.table !in s.pages
                     && a.state.pages[a.table := Zeros(512)] == s.pages[a.table := Zeros(512)])
  {
    if s.supply != [] {
      var rest := s.supply[1..];
      assert forall i | 0 <= i < |rest| :: rest[i] == s.supply[i + 1];
    }
  }

  /** What one descent does to memory, seen from the tree. */
  lemma DescendEffect(s: State, root: u64, tree: Tree, n: Node, e: nat)
    requires Good(s, root, tree) && n in tree && n.depth < 3 && e < 512
    ensures var g := Descend(s, tree[n], e);
            if Child(n, e) in tree then g == Outcome(EFI_SUCCESS, tree[Child(n, e)], s)
            else if IsError(g.status) then g.state.pages == s.pages && Honest(g.state)
            else
              && g.status == EFI_SUCCESS && IsFrame(g.table) && g.table !in s.pages && Honest(g.state)
              && g.state.pages == Store(s.pages[g.table := Zeros(512)], tree[n], e, MadePresent(g.table))
  {
    var t := tree[n];
    WalkStep(s.pages, root, tree, n, e);
    if Child(n, e) in tree {
      StoreSame(s.pages, t, e);
    } else {
      AllocationIsHonest(s);
      var a := AllocatePages(s);
      if !IsError(a.status) {
        StoreTwice(s.pages[a.table := Zeros(512)], t, e, a.table, MadePresent(a.table));
      }
    }
  }

  lemma DescendKeeps(s: State, root: u64, tree: Tree, n: Node, e: nat)
    requires Good(s, root, tree) && n in tree && n.depth < 3 && e < 512
    ensures var g := Descend(s, tree[n], e);
            var tree' := Grown(tree, n, e, g);
            && Good(g.state, root, tree')
            && SameLeaves(s.pages, tree, g.state.pages, tree')
            && |g.state.pages| - |s.pages| == |tree'| - |tree|
            && GrowsBy(tree, tree', Child(n, e), IsError(g.status))
            && (if IsError(g.status) then g.state.pages == s.pages
                else g.status == EFI_SUCCESS && Child(n, e) in tree' && tree'[Child(n, e)] == g.table)
  {
    DescendEffect(s, root, tree, n, e);
    var g := Descend(s, tree[n], e);
    if Child(n, e) !in tree && !IsError(g.status) {
      DescendMakes(s, root, tree, n, e, g);
    }
  }

  lemma DescendMakes(s: State, root: u64, tree: Tree, n: Node, e: nat, g: Outcome)
    requires Forms(s.pages, root, tree) && n in tree && n.depth < 3 && e < 512 && Child(n, e) !in tree
    requires IsFrame(g.table) && g.table !in s.pages
    requires g.state.pages == Store(s.pages[g.table := Zeros(512)], tree[n], e, MadePresent(g.table))
    ensures var tree' := tree[Child(n, e) := g.table];
            && Forms(g.state.pages, root, tree')
            && SameLeaves(s.pages, tree, g.state.pages, tree')
            && |g.state.pages| == |s.pages| + 1
  {
    hide Forms, SameLeaves, Store, MadePresent, IsFrame, Child;
    LinkEntry(g.table);
    AddTable(s.pages, root, tree, n, e, g.table);
  }

  lemma StoreSame(pages: map<u64, Page>, t: u64, e: nat)
    requires t in pages && e < 512
    ensures Store(pages, t, e, Load(pages, t, e)) == pages
  {
    assert pages[t][e := pages[t][e]] == pages[t];
  }

  lemma StoreTwice(pages: map<u64, Page>, t: u64, e: nat, v: u64, w: u64)
    requires t in pages && e < 512
    ensures Load(Store(pages, t, e, v), t, e) == v
    ensures Store(Store(pages, t, e, v), t, e, w) == Store(pages, t, e, w)
  {
    assert pages[t][e := v][e := w] == pages[t][e := w];
  }

  // ----- Three levels -----

  /** The tree after the three descents of one call: what the tables grew to, also when the
      call failed at some level. */
  function GrownPath(s: State, root: u64, tree: Tree, virt: u64): Tree {
    var p := PageNumber(virt);
    var g3 := Descend(s, root, EntryPML4(virt));
    var tree3 := Grown(tree, ROOT, EntryPML4(virt), g3);
    if IsError(g3.status) then tree3 else
    var g2 := Descend(g3.state, g3.table, EntryPDPT(virt));
    var tree2 := Grown(tree3, Serving(p, 1), EntryPDPT(virt), g2);
    if IsError(g2.status) then tree2 else
    var g1 := Descend(g2.state, g2.table, EntryPD(virt));
    Grown(tree2, Serving(p, 2), EntryPD(virt), g1)
  }

  /** The tables on the path of page p that do not exist yet. */
  function Missing(tree: Tree, p: nat): nat {
    (if Serving(p, 1) in tree then 0 else 1) + (if Serving(p, 2) in tree then 0 else 1)
    + (if Serving(p, 3) in tree then 0 else 1)
  }

  /** The three descents of one call keep the tree and all translations. */
  lemma PathKeeps(s: State, root: u64, tree: Tree, virt: u64)
    requires Good(s, root, tree)
    ensures var g := PageTableOf(s, root, virt);
            var tree' := GrownPath(s, root, tree, virt);
            var p := PageNumber(virt);
            && Good(g.state, root, tree')
            && SameLeaves(s.pages, tree, g.state.pages, tree')
            && |g.state.pages| - |s.pages| == |tree'| - |tree|
            && (if IsError(g.status) then Serving(p, 3) !in tree'
                else g.status == EFI_SUCCESS && Serving(p, 3) in tree' && tree'[Serving(p, 3)] == g.table)
  {
    var p := PageNumber(virt);
    ServingPath(virt);
    ChildParent(Serving(p, 1), EntryPDPT(virt));
    ChildParent(Serving(p, 2), EntryPD(virt));
    DescendKeeps(s, root, tree, ROOT, EntryPML4(virt));
    var g3 := Descend(s, root, EntryPML4(virt));
    var tree3 := Grown(tree, ROOT, EntryPML4(virt), g3);
    if !IsError(g3.status) {
      DescendKeeps(g3.state, root, tree3, Serving(p, 1), EntryPDPT(virt));
      var g2 := Descend(g3.state, g3.table, EntryPDPT(virt));
      var tree2 := Grown(tree3, Serving(p, 1), EntryPDPT(virt), g2);
      if !IsError(g2.status) {
        DescendKeeps(g2.state, root, tree2, Serving(p, 2), EntryPD(virt));
      }
    }
  }

  /** A call that gets through makes exactly the tables that were missing on its path; one that
      fails makes fewer. */
  lemma PathMakesTheMissing(s: State, root: u64, tree: Tree, virt: u64)
    requires Good(s, root, tree)
    ensures var tree' := GrownPath(s, root, tree, virt);
            var p := PageNumber(virt);
            if IsError(PageTableOf(s, root, virt).status)
            then |tree| <= |tree'| < |tree| + Missing(tree, p)
            else GrowsByPath(tree, tree', p) && |tree'| == |tree| + Missing(tree, p)
  {
    var p := PageNumber(virt);
    ServingPath(virt);
    var g3 := Descend(s, root, EntryPML4(virt));
    var tree3 := Grown(tree, ROOT, EntryPML4(virt), g3);
    assert Good(g3.state, root, tree3) && GrowsBy(tree, tree3, Serving(p, 1), IsError(g3.status)) by {
      DescendKeeps(s, root, tree, ROOT, EntryPML4(virt));
    }
    if IsError(g3.status) {
      CountLevels(tree, tree3, tree3, tree3, p, true, true, true);
    } else {
      assert tree3[Serving(p, 1)] == g3.table by { DescendKeeps(s, root, tree, ROOT, EntryPML4(virt)); }
      var g2 := Descend(g3.state, g3.table, EntryPDPT(virt));
      var tree2 := Grown(tree3, Serving(p, 1), EntryPDPT(virt), g2);
      assert Good(g2.state, root, tree2) && GrowsBy(tree3, tree2, Serving(p, 2), IsError(g2.status)) by {
        DescendKeeps(g3.state, root, tree3, Serving(p, 1), EntryPDPT(virt));
      }
      if IsError(g2.status) {
        CountLevels(tree, tree3, tree2, tree2, p, false, true, true);
      } else {
        assert tree2[Serving(p, 2)] == g2.table by {
          DescendKeeps(g3.state, root, tree3, Serving(p, 1), EntryPDPT(virt));
        }
        var g1 := Descend(g2.state, g2.table, EntryPD(virt));
        var tree1 := Grown(tree2, Serving(p, 2), EntryPD(virt), g1);
        assert GrowsBy(tree2, tree1, Serving(p, 3), IsError(g1.status)) by {
          DescendKeeps(g2.state, root, tree2, Serving(p, 2), EntryPD(virt));
        }
        CountLevels(tree, tree3, tree2, tree1, p, false, false, IsError(g1.status));
      }
    }
  }

  lemma CountLevels(t0: Tree, t1: Tree, t2: Tree, t3: Tree, p: nat, fail1: bool, fail2: bool, fail3: bool)
    requires GrowsBy(t0, t1, Serving(p, 1), fail1)
    requires if fail1 then t2 == t1 && fail2 else GrowsBy(t1, t2, Serving(p, 2), fail2)
    requires if fail2 then t3 == t2 && fail3 else GrowsBy(t2, t3, Serving(p, 3), fail3)
    ensures if fail3 then |t0| <= |t3| < |t0| + Missing(t0, p)
            else GrowsByPath(t0, t3, p) && |t3| == |t0| + Missing(t0, p)
  {
  }

  // ----- The leaf -----

  /** A store into a page table keeps the tree... */
  lemma LeafStoreForms(pages: map<u64, Page>, root: u64, tree: Tree, n: Node, i: nat, w: u64)
    requires Forms(pages, root, tree) && n in tree && n.depth == 3 && i < 512
    ensures Forms(Store(pages, tree[n], i, w), root, tree)
  {
    var pages' := Store(pages, tree[n], i, w);
    forall m, e | m in tree && m.depth < 3 && 0 <= e < 512
      ensures pages'[tree[m]][e] == Link(tree, Child(m, e))
    {
      assert tree[m] != tree[n];
    }
  }

  /** ... and changes the leaf entry of one page. */
  lemma LeafStoreEffect(pages: map<u64, Page>, root: u64, tree: Tree, q: nat, w: u64)
    requires Forms(pages, root, tree) && q < 0x10_0000_0000 && Serving(q, 3) in tree
    ensures var pages' := Store(pages, tree[Serving(q, 3)], q % 512, w);
            && pages'.Keys == pages.Keys
            && forall p: nat | p < 0x10_0000_0000 ::
                 LeafOf(pages', tree, p) == if p == q then w else LeafOf(pages, tree, p)
  {
    var pt := tree[Serving(q, 3)];
    var pages' := Store(pages, pt, q % 512, w);
    forall p: nat | p < 0x10_0000_0000
      ensures LeafOf(pages', tree, p) == if p == q then w else LeafOf(pages, tree, p)
    {
      if Serving(p, 3) in tree && tree[Serving(p, 3)] == pt {
        assert Serving(p, 3) == Serving(q, 3);
        assert p % 512 == q % 512 ==> p == q;
      }
    }
  }

  /** One call of MMap or MakeTempRegion on the map of leaf entries: a failed call changes no
      entry, a successful one exactly the entry of its own page. */
  lemma EnterKeeps(s: State, root: u64, tree: Tree, virt: u64, word: u64 -> u64)
    requires Good(s, root, tree)
    ensures var g := Enter(s, root, virt, word);
            var tree' := GrownPath(s, root, tree, virt);
            var q := PageNumber(virt);
            && Good(g.state, root, tree')
            && |g.state.pages| - |s.pages| == |tree'| - |tree|
            && (if IsError(g.status) then SameLeaves(s.pages, tree, g.state.pages, tree')
                else
                  && g.status == EFI_SUCCESS
                  && Serving(q, 3) in tree' && tree'[Serving(q, 3)] == g.table
                  && forall p: nat | p < 0x10_0000_0000 ::
                       LeafOf(g.state.pages, tree', p)
                       == if p == q then word(g.table) else LeafOf(s.pages, tree, p))
  {
    PathKeeps(s, root, tree, virt);
    var g := PageTableOf(s, root, virt);
    var tree' := GrownPath(s, root, tree, virt);
    if !IsError(g.status) {
      Indices(virt);
      LeafStoreForms(g.state.pages, root, tree', Serving(PageNumber(virt), 3), EntryPT(virt), word(g.table));
      LeafStoreEffect(g.state.pages, root, tree', PageNumber(virt), word(g.table));
      assert |Enter(s, root, virt, word).state.pages.Keys| == |g.state.pages.Keys|;
    }
  }
}
