/** Runs of operations: the tables stay a tree, the translations are the log of successful
    writes applied in order, and every page that was allocated is a table of the tree. */
module PagingRuns {
  import opened Bits
  import opened PagingSpec
  import opened PagingProofs
  import opened PagingTheorems

  predicate AllSucceed(s: State, root: u64, ops: seq<Op>)
    decreases |ops|
  {
    ops == [] || (!IsError(Step(s, root, ops[0]).status) && AllSucceed(Step(s, root, ops[0]).state, root, ops[1..]))
  }

  /** One successful write: a page and what it is mapped to from then on. */
  datatype Write = Write(page: nat, mapping: Mapping)

  function Meaning(op: Op, g: Outcome): Write {
    match op
    case Map(phys, virt, cached) => Write(PageNumber(virt), MappingFor(phys, cached))
    case Window(virt) => Write(PageNumber(virt), Mapped(g.table, 3, true))
  }

  /** The log of a run: what its successful operations write, in order. */
  function Log(s: State, root: u64, ops: seq<Op>): seq<Write>
    decreases |ops|
  {
    if ops == [] then []
    else
      var g := Step(s, root, ops[0]);
      (if IsError(g.status) then [] else [Meaning(ops[0], g)]) + Log(g.state, root, ops[1..])
  }

  function Apply(m: map<nat, Mapping>, log: seq<Write>): map<nat, Mapping>
    decreases |log|
  {
    if log == [] then m else Apply(m[log[0].page := log[0].mapping], log[1..])
  }

  lemma StepRefines(s: State, root: u64, tree: Tree, op: Op)
    requires Good(s, root, tree)
    ensures var g := Step(s, root, op);
            var w := Meaning(op, g);
            && Good(g.state, root, GrownPath(s, root, tree, op.virt))
            && (g.status == EFI_SUCCESS || IsError(g.status))
            && |g.state.pages| - |s.pages| == |GrownPath(s, root, tree, op.virt)| - |tree|
            && View(g.state.pages, root)
               == (if IsError(g.status) then View(s.pages, root) else View(s.pages, root)[w.page := w.mapping])
  {
    match op
    case Map(phys, virt, cached) =>
      LeafEntryMeans(phys, cached);
      EnterKeeps(s, root, tree, virt, _ => LeafEntry(phys, cached));
      EnterUpdates(s, root, tree, virt, _ => LeafEntry(phys, cached), MappingFor(phys, cached));
    case Window(virt) =>
      var word := (pt: u64) => LeafEntry(pt, false);
      EnterKeeps(s, root, tree, virt, word);
      var g := Enter(s, root, virt, word);
      WindowEntry(s, root, tree, virt);
      EnterUpdates(s, root, tree, virt, word, Mapped(g.table, 3, true));
  }

  lemma WindowEntry(s: State, root: u64, tree: Tree, virt: u64)
    requires Good(s, root, tree)
    ensures var g := PageTableOf(s, root, virt);
            !IsError(g.status) ==> LeafMapping(LeafEntry(g.table, false)) == Mapped(g.table, 3, true)
  {
    PathKeeps(s, root, tree, virt);
    var g := PageTableOf(s, root, virt);
    if !IsError(g.status) {
      LeafEntryMeans(g.table, false);
      FrameMapping(g.table);
    }
  }

  /** Over every run, also one in which operations fail, the tables stay a tree, the map of
      translations is the start map with the log of the run applied, and the pages taken from
      the firmware are exactly the new tables of the tree. */
  lemma {:induction false} RunRefines(s: State, root: u64, ops: seq<Op>)
    requires WellFormed(s, root)
    ensures var s' := Run(s, root, ops);
            && WellFormed(s', root)
            && View(s'.pages, root) == Apply(View(s.pages, root), Log(s, root, ops))
            && |s'.pages| - |s.pages| == |TreeOf(s', root)| - |TreeOf(s, root)|
    decreases |ops|
  {
    if ops != [] {
      var tree := TreeOf(s, root);
      var g := Step(s, root, ops[0]);
      StepRefines(s, root, tree, ops[0]);
      TreeUnique(g.state.pages, root, TreeOf(g.state, root), GrownPath(s, root, tree, ops[0].virt));
      RunRefines(g.state, root, ops[1..]);
      if !IsError(g.status) {
        assert Log(s, root, ops) == [Meaning(ops[0], g)] + Log(g.state, root, ops[1..]);
        assert Log(s, root, ops)[1..] == Log(g.state, root, ops[1..]);
      } else {
        assert Log(s, root, ops) == Log(g.state, root, ops[1..]);
      }
    }
  }

  lemma {:induction false} RunAppend(s: State, root: u64, xs: seq<Op>, ys: seq<Op>)
    ensures Run(s, root, xs + ys) == Run(Run(s, root, xs), root, ys)
    ensures AllSucceed(s, root, xs + ys) <==> AllSucceed(s, root, xs) && AllSucceed(Run(s, root, xs), root, ys)
    decreases |xs|
  {
    if xs == [] {
      assert xs + ys == ys;
    } else {
      assert (xs + ys)[0] == xs[0] && (xs + ys)[1..] == xs[1..] + ys;
      RunAppend(Step(s, root, xs[0]).state, root, xs[1..], ys);
    }
  }

  // ----- The start -----

  /** A root of 512 zero entries, and a firmware that keeps its promises. */
  ghost predicate Fresh(s: State, root: u64) {
    root in s.pages && s.pages[root] == Zeros(512) && IsFrame(root) && Honest(s)
  }

  lemma FreshRoot(s: State, root: u64)
    requires Fresh(s, root)
    ensures Good(s, root, map[ROOT := root]) && WellFormed(s, root)
    ensures TreeOf(s, root) == map[ROOT := root]
    ensures View(s.pages, root) == map[]
  {
    var tree := map[ROOT := root];
    FreshForms(s.pages, root);
    assert Good(s, root, tree);
    TreeUnique(s.pages, root, TreeOf(s, root), tree);
    FreshView(s.pages, root);
  }

  lemma FreshForms(pages: map<u64, Page>, root: u64)
    requires root in pages && pages[root] == Zeros(512) && IsFrame(root)
    ensures Forms(pages, root, map[ROOT := root])
  {
  }

  lemma FreshView(pages: map<u64, Page>, root: u64)
    requires Forms(pages, root, map[ROOT := root])
    ensures View(pages, root) == map[]
  {
    hide Walk, Forms;
    forall p: nat
      ensures Lookup(View(pages, root), p) == Fault
    {
      if p < 0x10_0000_0000 {
        ViewIsTheTree(pages, root, map[ROOT := root], p);
      }
    }
    SameMap(View(pages, root), map[]);
  }

  /** From a zeroed root, every run ends in a tree of tables, and the pages that were taken
      from the firmware are as many as its present entries above the last level. */
  lemma RunFromFreshRoot(s: State, root: u64, ops: seq<Op>)
    requires Fresh(s, root)
    ensures var s' := Run(s, root, ops);
            && WellFormed(s', root)
            && View(s'.pages, root) == Apply(map[], Log(s, root, ops))
            && |s'.pages| - |s.pages| == |DirectoryEntries(s', root)|
  {
    FreshRoot(s, root);
    RunRefines(s, root, ops);
    EntriesAreTables(Run(s, root, ops), root);
  }

  // ----- How many pages a run needs -----

  /** The next k answers of the firmware are pages. */
  predicate Granted(supply: seq<Reply>, k: nat) {
    k <= |supply| && forall i | 0 <= i < k :: supply[i].Grant?
  }

  lemma GrantedInTurn(supply: seq<Reply>, a: nat, b: nat)
    ensures Granted(supply, a + b) <==> Granted(supply, a) && Granted(supply[a..], b)
    ensures a + b <= |supply| ==> supply[a..][b..] == supply[a + b..]
  {
    if Granted(supply, a) && Granted(supply[a..], b) {
      forall i | 0 <= i < a + b
        ensures supply[i].Grant?
      {
        assert i >= a ==> supply[i] == supply[a..][i - a];
      }
    }
  }

  /** A call that gets through exactly when the next k answers are pages, and takes those. */
  predicate Takes(s: State, g: Outcome, k: nat) {
    && (!IsError(g.status) <==> Granted(s.supply, k))
    && (!IsError(g.status) ==> g.state.supply == s.supply[k..])
  }

  lemma TakesInTurn(s: State, g: Outcome, h: Outcome, a: nat, b: nat)
    requires Takes(s, g, a)
    requires if IsError(g.status) then IsError(h.status) else Takes(g.state, h, b)
    ensures Takes(s, h, a + b)
  {
    hide Granted, IsError;
    GrantedInTurn(s.supply, a, b);
    assert Granted(s.supply, a + b) ==> a + b <= |s.supply| by { GrantedLength(s.supply, a + b); }
  }

  lemma GrantedLength(supply: seq<Reply>, k: nat)
    ensures Granted(supply, k) ==> k <= |supply|
  {
  }

  function Absent(tree: Tree, n: Node): nat {
    if n in tree then 0 else 1
  }

  /** One level takes an answer exactly when its table is missing. */
  lemma DescendTakes(s: State, root: u64, tree: Tree, n: Node, e: nat)
    requires Good(s, root, tree) && n in tree && n.depth < 3 && e < 512
    ensures Takes(s, Descend(s, tree[n], e), Absent(tree, Child(n, e)))
  {
    hide Load, Store, Address, Present, MadePresent;
    LevelIsPresent(s.pages, root, tree, n, e);
  }

  lemma LevelIsPresent(pages: map<u64, Page>, root: u64, tree: Tree, n: Node, e: nat)
    requires Forms(pages, root, tree) && n in tree && n.depth < 3 && e < 512
    ensures Present(Load(pages, tree[n], e)) <==> Child(n, e) in tree
  {
    WalkStep(pages, root, tree, n, e);
  }

  /** One level, seen from the tables and from the supply. */
  lemma LevelTakes(s: State, root: u64, tree: Tree, n: Node, e: nat, c: Node)
    requires Good(s, root, tree) && n in tree && n.depth < 3 && e < 512 && c == Child(n, e)
    ensures var g := Descend(s, tree[n], e);
            var tree' := Grown(tree, n, e, g);
            && Takes(s, g, Absent(tree, c))
            && (!IsError(g.status) ==> Good(g.state, root, tree') && c in tree' && tree'[c] == g.table)
            && forall m | m != c :: m in tree' <==> m in tree
  {
    hide Descend, Good, Takes, SameLeaves;
    DescendTakes(s, root, tree, n, e);
    DescendKeeps(s, root, tree, n, e);
  }

  lemma RootInTree(s: State, root: u64, tree: Tree)
    requires Good(s, root, tree)
    ensures ROOT in tree && tree[ROOT] == root
  {
  }

  /** A call takes as many answers as tables are missing on its path. */
  lemma PathTakes(s: State, root: u64, tree: Tree, virt: u64)
    requires Good(s, root, tree)
    ensures Takes(s, PageTableOf(s, root, virt), Missing(tree, PageNumber(virt)))
  {
    hide Descend, Good, PageNumber, Takes, Grown, EntryPML4, EntryPDPT, EntryPD, Child, IsError;
    var p := PageNumber(virt);
    var n1, n2, n3 := Serving(p, 1), Serving(p, 2), Serving(p, 3);
    var k1, k2, k3 := Absent(tree, n1), Absent(tree, n2), Absent(tree, n3);
    IndicesBelow(virt);
    ServingPath(virt);
    RootInTree(s, root, tree);
    LevelTakes(s, root, tree, ROOT, EntryPML4(virt), n1);
    var g3 := Descend(s, root, EntryPML4(virt));
    var tree3 := Grown(tree, ROOT, EntryPML4(virt), g3);
    var g := PageTableOf(s, root, virt);
    if IsError(g3.status) {
      TakesInTurn(s, g3, g, k1, k2 + k3);
    } else {
      LevelTakes(g3.state, root, tree3, n1, EntryPDPT(virt), n2);
      var g2 := Descend(g3.state, g3.table, EntryPDPT(virt));
      var tree2 := Grown(tree3, n1, EntryPDPT(virt), g2);
      TakesInTurn(s, g3, g2, k1, k2);
      if !IsError(g2.status) {
        LevelTakes(g2.state, root, tree2, n2, EntryPD(virt), n3);
      }
      TakesInTurn(s, g2, g, k1 + k2, k3);
    }
  }

  lemma IndicesBelow(virt: nat)
    ensures EntryPML4(virt) < 512 && EntryPDPT(virt) < 512 && EntryPD(virt) < 512
  {
  }

  lemma StepTakes(s: State, root: u64, tree: Tree, op: Op)
    requires Good(s, root, tree)
    ensures Takes(s, Step(s, root, op), Missing(tree, PageNumber(op.virt)))
  {
    hide PageTableOf, Missing, PageNumber, Store, Granted, Good;
    PathTakes(s, root, tree, op.virt);
  }

  // ----- What a call draws from the firmware, and what it reports -----

  /** The pages that the first k answers grant. */
  function Bases(supply: seq<Reply>, k: nat): set<u64>
    requires k <= |supply|
  {
    set i | 0 <= i < k && supply[i].Grant? :: supply[i].base
  }

  /** A call that was granted k pages, all of them in use from then on. One that fails reports
      the status with which the firmware refused the next page, or that there was no page left. */
  ghost predicate Drew(s: State, g: Outcome, k: nat) {
    && Granted(s.supply, k)
    && g.state.pages.Keys == s.pages.Keys + Bases(s.supply, k)
    && (if !IsError(g.status) then g.status == 0 && g.state.supply == s.supply[k..]
        else if k < |s.supply| then s.supply[k] == Refuse(g.status) && g.state.supply == s.supply[k + 1..]
        else g.status == 0x8000_0000_0000_0009 && g.state.supply == [])
  }

  lemma BasesInTurn(supply: seq<Reply>, a: nat, b: nat)
    requires Granted(supply, a) && Granted(supply[a..], b)
    ensures Bases(supply, a + b) == Bases(supply, a) + Bases(supply[a..], b)
  {
    var rest := supply[a..];
    assert forall i | 0 <= i < b :: rest[i] == supply[a + i];
    forall x | x in Bases(supply, a + b)
      ensures x in Bases(supply, a) + Bases(rest, b)
    {
      var i :| 0 <= i < a + b && supply[i].Grant? && supply[i].base == x;
      if i >= a {
        assert rest[i - a].base == x;
      }
    }
    forall x | x in Bases(rest, b)
      ensures x in Bases(supply, a + b)
    {
      var i :| 0 <= i < b && rest[i].Grant? && rest[i].base == x;
      assert supply[a + i].base == x;
    }
  }

  lemma DrewInTurn(s: State, g: Outcome, h: Outcome, a: nat, b: nat)
    requires Drew(s, g, a) && !IsError(g.status) && Drew(g.state, h, b)
    ensures Drew(s, h, a + b)
  {
    hide Granted, Bases, IsError;
    GrantedInTurn(s.supply, a, b);
    GrantedLength(s.supply, a);
    GrantedLength(s.supply[a..], b);
    BasesInTurn(s.supply, a, b);
  }

  /** The pages that a call took: one for each level where it made a table. */
  function Made(tree: Tree, n: Node, g: Outcome): nat {
    if n in tree || IsError(g.status) then 0 else 1
  }

  lemma DescendDraws(s: State, root: u64, tree: Tree, n: Node, e: nat, c: Node)
    requires Good(s, root, tree) && n in tree && n.depth < 3 && e < 512 && c == Child(n, e)
    ensures var g := Descend(s, tree[n], e);
            && Drew(s, g, Made(tree, c, g))
            && (c !in tree && !IsError(g.status) ==> s.supply[0] == Grant(g.table, s.supply[0].junk))
            && (c in tree ==> g == Outcome(EFI_SUCCESS, tree[c], s))
  {
    hide Load, Address, Present, MadePresent;
    LevelIsPresent(s.pages, root, tree, n, e);
    DescendEffect(s, root, tree, n, e);
    var g := Descend(s, tree[n], e);
    if c !in tree && !IsError(g.status) {
      assert Bases(s.supply, 1) == {g.table};
    }
  }

  /** One level, with the tree that it leaves. */
  lemma LevelDraws(s: State, root: u64, tree: Tree, n: Node, e: nat, c: Node)
    requires Good(s, root, tree) && n in tree && n.depth < 3 && e < 512 && c == Child(n, e)
    ensures var g := Descend(s, tree[n], e);
            var tree' := Grown(tree, n, e, g);
            && Drew(s, g, Made(tree, c, g))
            && (!IsError(g.status) ==> Good(g.state, root, tree') && c in tree' && tree'[c] == g.table)
            && (IsError(g.status) ==> tree' == tree && c !in tree)
            && Adds(s.supply, tree, tree', c, 0)
  {
    hide Descend, Good, Drew, SameLeaves;
    DescendDraws(s, root, tree, n, e, c);
    DescendKeeps(s, root, tree, n, e);
    DrewLength(s, Descend(s, tree[n], e), Made(tree, c, Descend(s, tree[n], e)));
  }

  lemma DrewLength(s: State, g: Outcome, k: nat)
    requires Drew(s, g, k)
    ensures k <= |s.supply| && forall i | 0 <= i < k :: s.supply[i].Grant?
    ensures !IsError(g.status) ==> g.state.supply == s.supply[k..]
  {
  }

  /** Where the pages go: a call makes its missing tables from the top, and the granted pages
      become these tables in the order of the grants. */
  ghost predicate InOrder(s: State, tree: Tree, tree': Tree, p: nat) {
    var m := Missing(tree, p);
    forall d: nat | 1 <= d <= 3 && Serving(p, d) in tree' && Serving(p, d) !in tree ::
      0 <= d + m - 4 < |s.supply| && s.supply[d + m - 4].Grant? && tree'[Serving(p, d)] == s.supply[d + m - 4].base
  }

  lemma PathDraws(s: State, root: u64, tree: Tree, virt: u64) returns (k: nat)
    requires Good(s, root, tree)
    ensures var g := PageTableOf(s, root, virt);
            Drew(s, g, k) && (IsError(g.status) ==> k < Missing(tree, PageNumber(virt)))
    ensures InOrder(s, tree, GrownPath(s, root, tree, virt), PageNumber(virt))
  {
    hide Descend, Good, PageNumber, Drew, Grown, EntryPML4, EntryPDPT, EntryPD, Child, IsError;
    var p := PageNumber(virt);
    var n1, n2, n3 := Serving(p, 1), Serving(p, 2), Serving(p, 3);
    IndicesBelow(virt);
    ServingPath(virt);
    RootInTree(s, root, tree);
    PathClosed(s, root, tree, p);
    LevelDraws(s, root, tree, ROOT, EntryPML4(virt), n1);
    var g3 := Descend(s, root, EntryPML4(virt));
    var tree3 := Grown(tree, ROOT, EntryPML4(virt), g3);
    k := Made(tree, n1, g3);
    if IsError(g3.status) {
      NothingNew(s, tree, p);
      return;
    }
    LevelDraws(g3.state, root, tree3, n1, EntryPDPT(virt), n2);
    var g2 := Descend(g3.state, g3.table, EntryPDPT(virt));
    var tree2 := Grown(tree3, n1, EntryPDPT(virt), g2);
    DrewInTurn(s, g3, g2, k, Made(tree3, n2, g2));
    DrewLength(s, g3, k);
    k := k + Made(tree3, n2, g2);
    if IsError(g2.status) {
      LevelsInOrder(s, tree, tree3, tree3, tree3, p);
      return;
    }
    LevelDraws(g2.state, root, tree2, n2, EntryPD(virt), n3);
    var g1 := Descend(g2.state, g2.table, EntryPD(virt));
    DrewInTurn(s, g2, g1, k, Made(tree2, n3, g1));
    DrewLength(s, g2, k);
    k := k + Made(tree2, n3, g1);
    LevelsInOrder(s, tree, tree3, tree2, Grown(tree2, n2, EntryPD(virt), g1), p);
  }

  lemma NothingNew(s: State, tree: Tree, p: nat)
    ensures InOrder(s, tree, tree, p)
  {
  }

  /** The tree has at most n more, and answer i for it. */
  ghost predicate Adds(supply: seq<Reply>, tree: Tree, tree': Tree, n: Node, i: nat) {
    && (forall m | m != n :: m in tree' <==> m in tree)
    && (forall m | m in tree :: m in tree' && tree'[m] == tree[m])
    && (n in tree' && n !in tree ==> i < |supply| && supply[i].Grant? && tree'[n] == supply[i].base)
  }

  lemma LevelsInOrder(s: State, t0: Tree, t1: Tree, t2: Tree, t3: Tree, p: nat)
    requires Serving(p, 2) in t0 ==> Serving(p, 1) in t0
    requires Serving(p, 3) in t0 ==> Serving(p, 2) in t0
    requires var k1, k2 := Absent(t0, Serving(p, 1)), Absent(t0, Serving(p, 2));
             && Adds(s.supply, t0, t1, Serving(p, 1), 0)
             && Adds(s.supply, t1, t2, Serving(p, 2), k1)
             && Adds(s.supply, t2, t3, Serving(p, 3), k1 + k2)
    ensures InOrder(s, t0, t3, p)
  {
    hide Serving;
    var n1, n2 := Serving(p, 1), Serving(p, 2);
    LevelsDiffer(p);
    forall d: nat | 1 <= d <= 3 && Serving(p, d) in t3 && Serving(p, d) !in t0
      ensures var i := d + Missing(t0, p) - 4;
              0 <= i < |s.supply| && s.supply[i].Grant? && t3[Serving(p, d)] == s.supply[i].base
    {
      if d == 1 {
        assert n1 in t1 && t3[n1] == t1[n1];
      } else if d == 2 {
        assert n2 in t2 && t3[n2] == t2[n2];
      } else {
        assert d == 3;
      }
    }
  }

  lemma PathClosed(s: State, root: u64, tree: Tree, p: nat)
    requires Good(s, root, tree)
    ensures Serving(p, 2) in tree ==> Serving(p, 1) in tree
    ensures Serving(p, 3) in tree ==> Serving(p, 2) in tree
  {
    assert Serving(p, 2) in tree ==> Parent(Serving(p, 2)) in tree;
    assert Serving(p, 3) in tree ==> Parent(Serving(p, 3)) in tree;
    Parents(p);
  }

  lemma Parents(p: nat)
    ensures Parent(Serving(p, 2)) == Serving(p, 1) && Parent(Serving(p, 3)) == Serving(p, 2)
  {
    DivByParts(p, 0x4_0000, 512);
    DivByParts(p, 512, 512);
  }

  lemma {:induction false} BasesCount(s: State, k: nat)
    requires Honest(s) && Granted(s.supply, k)
    ensures |Bases(s.supply, k)| == k && Bases(s.supply, k) !! s.pages.Keys
    decreases k
  {
    hide Honest, Granted;
    if k > 0 {
      OneMoreBase(s, k);
      BasesCount(s, k - 1);
    } else {
      assert Bases(s.supply, 0) == {};
    }
  }

  lemma OneMoreBase(s: State, k: nat)
    requires Honest(s) && Granted(s.supply, k) && k > 0
    ensures Granted(s.supply, k - 1)
    ensures Bases(s.supply, k) == Bases(s.supply, k - 1) + {s.supply[k - 1].base}
    ensures s.supply[k - 1].base !in Bases(s.supply, k - 1) && s.supply[k - 1].base !in s.pages
  {
  }

  lemma DrewCount(s: State, g: Outcome, k: nat)
    requires Honest(s) && Drew(s, g, k)
    ensures |g.state.pages| - |s.pages| == k
  {
    BasesCount(s, k);
    assert |g.state.pages| == |g.state.pages.Keys| && |s.pages| == |s.pages.Keys|;
  }

  /** One call and the firmware, exactly: it is granted as many pages as frames come into use; if
      it fails, it reports the status of the refusal that followed, or that no page was left; and
      the granted pages become the missing tables of its path from the top. */
  lemma CallReports(s: State, root: u64, op: Op)
    requires WellFormed(s, root)
    ensures var g := Step(s, root, op);
            var k := |g.state.pages| - |s.pages|;
            && 0 <= k <= |s.supply|
            && (forall i | 0 <= i < k :: s.supply[i].Grant? && s.supply[i].base in g.state.pages)
            && (if !IsError(g.status) then g.status == 0 && g.state.supply == s.supply[k..]
                else if k < |s.supply| then s.supply[k] == Refuse(g.status) && g.state.supply == s.supply[k + 1..]
                else g.status == 0x8000_0000_0000_0009 && g.state.supply == [])
            && WellFormed(g.state, root)
            && InOrder(s, TreeOf(s, root), TreeOf(g.state, root), PageNumber(op.virt))
  {
    hide PageNumber, WellFormed, InOrder, GrownPath, View, PageTableOf, Good, EntryPT, Drew, Step, Granted, Bases;
    var tree := TreeOf(s, root);
    var k := PathDraws(s, root, tree, op.virt);
    StepDraws(s, root, op, k);
    StepRefines(s, root, tree, op);
    GoodIsWellFormed(s, root, tree);
    GoodIsWellFormed(Step(s, root, op).state, root, GrownPath(s, root, tree, op.virt));
    DrewCount(s, Step(s, root, op), k);
    DrewMeans(s, Step(s, root, op), k);
  }

  lemma DrewMeans(s: State, g: Outcome, k: nat)
    requires Drew(s, g, k)
    ensures k <= |s.supply| && forall i | 0 <= i < k :: s.supply[i].Grant? && s.supply[i].base in g.state.pages
    ensures if !IsError(g.status) then g.status == 0 && g.state.supply == s.supply[k..]
            else if k < |s.supply| then s.supply[k] == Refuse(g.status) && g.state.supply == s.supply[k + 1..]
            else g.status == 0x8000_0000_0000_0009 && g.state.supply == []
  {
    assert forall i | 0 <= i < k :: s.supply[i].base in Bases(s.supply, k);
  }

  lemma GoodIsWellFormed(s: State, root: u64, tree: Tree)
    requires Good(s, root, tree)
    ensures WellFormed(s, root) && TreeOf(s, root) == tree && Honest(s)
  {
    TreeUnique(s.pages, root, TreeOf(s, root), tree);
  }

  lemma StepDraws(s: State, root: u64, op: Op, k: nat)
    requires Drew(s, PageTableOf(s, root, op.virt), k)
    ensures Drew(s, Step(s, root, op), k)
  {
    hide PageTableOf, Granted, Bases, EntryPT;
  }

  // ----- Memory that is no table -----

  /** Frames that are in use and are no tables hold what they held. */
  ghost predicate FramesKept(pages: map<u64, Page>, pages': map<u64, Page>, tree: Tree) {
    forall t | t in pages && t !in tree.Values :: t in pages' && pages'[t] == pages[t]
  }

  /** A later tree has only new frames as further tables. */
  ghost predicate NewFramesOnly(pages: map<u64, Page>, tree: Tree, tree': Tree) {
    forall t | t in pages && t in tree'.Values :: t in tree.Values
  }

  lemma KeptInTurn(p0: map<u64, Page>, p1: map<u64, Page>, p2: map<u64, Page>, t0: Tree, t1: Tree, t2: Tree)
    requires FramesKept(p0, p1, t0) && NewFramesOnly(p0, t0, t1) && p0.Keys <= p1.Keys
    requires FramesKept(p1, p2, t1) && NewFramesOnly(p1, t1, t2) && p1.Keys <= p2.Keys
    ensures FramesKept(p0, p2, t0) && NewFramesOnly(p0, t0, t2) && p0.Keys <= p2.Keys
  {
  }

  lemma DescendKeepsFrames(s: State, root: u64, tree: Tree, n: Node, e: nat, c: Node)
    requires Good(s, root, tree) && n in tree && n.depth < 3 && e < 512 && c == Child(n, e)
    ensures var g := Descend(s, tree[n], e);
            var tree' := Grown(tree, n, e, g);
            && FramesKept(s.pages, g.state.pages, tree) && NewFramesOnly(s.pages, tree, tree')
            && s.pages.Keys <= g.state.pages.Keys
            && (!IsError(g.status) ==> Good(g.state, root, tree') && c in tree' && tree'[c] == g.table)
  {
    hide Descend, Good, SameLeaves;
    DescendEffect(s, root, tree, n, e);
    DescendKeeps(s, root, tree, n, e);
    var g := Descend(s, tree[n], e);
    var tree' := Grown(tree, n, e, g);
    assert tree[n] in tree.Values;
    forall t | t in s.pages && t in tree'.Values
      ensures t in tree.Values
    {
      var m :| m in tree' && tree'[m] == t;
      assert m != c ==> m in tree && tree[m] == t;
    }
  }

  lemma PathKeepsFrames(s: State, root: u64, tree: Tree, virt: u64)
    requires Good(s, root, tree)
    ensures var g := PageTableOf(s, root, virt);
            var tree' := GrownPath(s, root, tree, virt);
            && FramesKept(s.pages, g.state.pages, tree) && NewFramesOnly(s.pages, tree, tree')
            && s.pages.Keys <= g.state.pages.Keys
  {
    hide Descend, Good, PageNumber, Grown, EntryPML4, EntryPDPT, EntryPD, Child, FramesKept, NewFramesOnly;
    var p := PageNumber(virt);
    var n1, n2 := Serving(p, 1), Serving(p, 2);
    IndicesBelow(virt);
    ServingPath(virt);
    RootInTree(s, root, tree);
    DescendKeepsFrames(s, root, tree, ROOT, EntryPML4(virt), n1);
    var g3 := Descend(s, root, EntryPML4(virt));
    var tree3 := Grown(tree, ROOT, EntryPML4(virt), g3);
    if !IsError(g3.status) {
      DescendKeepsFrames(g3.state, root, tree3, n1, EntryPDPT(virt), n2);
      var g2 := Descend(g3.state, g3.table, EntryPDPT(virt));
      var tree2 := Grown(tree3, n1, EntryPDPT(virt), g2);
      KeptInTurn(s.pages, g3.state.pages, g2.state.pages, tree, tree3, tree2);
      if !IsError(g2.status) {
        DescendKeepsFrames(g2.state, root, tree2, n2, EntryPD(virt), Serving(p, 3));
        var g1 := Descend(g2.state, g2.table, EntryPD(virt));
        KeptInTurn(s.pages, g2.state.pages, g1.state.pages, tree, tree2, Grown(tree2, n2, EntryPD(virt), g1));
      }
    }
  }

  lemma StepKeepsFrames(s: State, root: u64, tree: Tree, op: Op)
    requires Good(s, root, tree)
    ensures var g := Step(s, root, op);
            var tree' := GrownPath(s, root, tree, op.virt);
            && FramesKept(s.pages, g.state.pages, tree) && NewFramesOnly(s.pages, tree, tree')
            && s.pages.Keys <= g.state.pages.Keys
  {
    hide PageTableOf, GrownPath, Good, PageNumber, EntryPT, SameLeaves;
    PathKeepsFrames(s, root, tree, op.virt);
    PathKeeps(s, root, tree, op.virt);
    var g := PageTableOf(s, root, op.virt);
    var tree' := GrownPath(s, root, tree, op.virt);
    if !IsError(g.status) {
      assert g.table in tree'.Values;
    }
  }

  /** A run changes no memory but its tables: a frame that was in use and is no table at the
      start, like the kernel's code, holds the same words at the end. */
  lemma {:induction false} RunKeepsFrames(s: State, root: u64, ops: seq<Op>)
    requires WellFormed(s, root)
    ensures var s' := Run(s, root, ops);
            && WellFormed(s', root)
            && s.pages.Keys <= s'.pages.Keys
            && (forall t | t in s.pages && t !in TreeOf(s, root).Values :: s'.pages[t] == s.pages[t])
            && NewFramesOnly(s.pages, TreeOf(s, root), TreeOf(s', root))
    decreases |ops|
  {
    hide WellFormed, View, Step, GrownPath, Good;
    if ops != [] {
      var tree, g := TreeOf(s, root), Step(s, root, ops[0]);
      StepKeepsFrames(s, root, tree, ops[0]);
      StepRefines(s, root, tree, ops[0]);
      GoodIsWellFormed(g.state, root, GrownPath(s, root, tree, ops[0].virt));
      RunKeepsFrames(g.state, root, ops[1..]);
      var s' := Run(s, root, ops);
      KeptInTurn(s.pages, g.state.pages, s'.pages, tree, TreeOf(g.state, root), TreeOf(s', root));
    }
  }

  /** The tables below the root on the paths of a run. */
  ghost function OnPaths(ops: seq<Op>): set<Node>
    decreases |ops|
  {
    if ops == [] then {} else Path(PageNumber(ops[0].virt)) + OnPaths(ops[1..])
  }

  function Path(p: nat): set<Node> {
    {Serving(p, 1), Serving(p, 2), Serving(p, 3)}
  }

  lemma MissingIsAbsent(tree: Tree, p: nat)
    ensures |Path(p) - tree.Keys| == Missing(tree, p)
  {
    hide Serving;
    LevelsDiffer(p);
    ThreeAbsent(Serving(p, 1), Serving(p, 2), Serving(p, 3), tree.Keys);
  }

  lemma ThreeAbsent(a: Node, b: Node, c: Node, have: set<Node>)
    requires a != b && a != c && b != c
    ensures |{a, b, c} - have|
            == (if a in have then 0 else 1) + (if b in have then 0 else 1) + (if c in have then 0 else 1)
  {
    assert {a, b, c} == {a} + {b, c} && {b, c} == {b} + {c} && {c} == {c} + {};
    OneAbsent(a, {b, c}, have);
    OneAbsent(b, {c}, have);
    OneAbsent(c, {}, have);
    assert {} - have == {};
  }

  lemma LevelsDiffer(p: nat)
    ensures Serving(p, 1).depth == 1 && Serving(p, 2).depth == 2 && Serving(p, 3).depth == 3
  {
  }

  lemma OneAbsent(n: Node, rest: set<Node>, have: set<Node>)
    requires n !in rest
    ensures |{n} + rest - have| == |rest - have| + if n in have then 0 else 1
  {
    if n in have {
      assert {n} + rest - have == rest - have;
    } else {
      assert {n} + rest - have == {n} + (rest - have);
    }
  }

  lemma NeedsInTurn(path: set<Node>, rest: set<Node>, have: set<Node>)
    ensures |path + rest - have| == |path - have| + |rest - (have + path)|
  {
    assert path + rest - have == (path - have) + (rest - (have + path));
  }

  lemma StepGrows(s: State, root: u64, tree: Tree, op: Op)
    requires Good(s, root, tree)
    ensures var tree' := GrownPath(s, root, tree, op.virt);
            && Good(Step(s, root, op).state, root, tree')
            && (!IsError(Step(s, root, op).status) ==> tree'.Keys == tree.Keys + Path(PageNumber(op.virt)))
  {
    hide PageTableOf, GrownPath, Good, PageNumber, Missing, View, Store;
    StepRefines(s, root, tree, op);
    PathMakesTheMissing(s, root, tree, op.virt);
  }

  /** How many tables a run lacks on all its paths together. */
  ghost function Needed(tree: Tree, ops: seq<Op>): nat {
    |OnPaths(ops) - tree.Keys|
  }

  /** What the first operation of a run takes, and what it leaves to the others. */
  lemma FirstNeeds(s: State, root: u64, tree: Tree, ops: seq<Op>)
    requires Good(s, root, tree) && ops != []
    ensures var g, tree' := Step(s, root, ops[0]), GrownPath(s, root, tree, ops[0].virt);
            var k, k' := Needed(tree, ops), Needed(tree', ops[1..]);
            && Good(g.state, root, tree')
            && (IsError(g.status) ==> !Granted(s.supply, k))
            && (!IsError(g.status) ==>
                 && (Granted(s.supply, k) <==> Granted(g.state.supply, k'))
                 && (Granted(s.supply, k) ==> g.state.supply[k'..] == s.supply[k..]))
  {
    hide Step, Good, Missing, GrownPath, Granted, Path, PageNumber, IsError, Needed, Takes;
    var op := ops[0];
    var k := Missing(tree, PageNumber(op.virt));
    var tree' := GrownPath(s, root, tree, op.virt);
    StepGrows(s, root, tree, op);
    StepTakes(s, root, tree, op);
    NeededInTurn(tree, tree', ops);
    TakesFirst(s, Step(s, root, op), k, Needed(tree, ops) - k);
  }

  lemma NeededInTurn(tree: Tree, tree': Tree, ops: seq<Op>)
    requires ops != []
    ensures var p := PageNumber(ops[0].virt);
            && Needed(tree, ops) >= Missing(tree, p)
            && (tree'.Keys == tree.Keys + Path(p) ==> Needed(tree, ops) == Missing(tree, p) + Needed(tree', ops[1..]))
  {
    hide Missing, Path, PageNumber;
    MissingIsAbsent(tree, PageNumber(ops[0].virt));
    NeedsInTurn(Path(PageNumber(ops[0].virt)), OnPaths(ops[1..]), tree.Keys);
  }

  lemma TakesFirst(s: State, g: Outcome, a: nat, b: nat)
    requires Takes(s, g, a)
    ensures IsError(g.status) ==> !Granted(s.supply, a + b)
    ensures !IsError(g.status) ==>
              && (Granted(s.supply, a + b) <==> Granted(g.state.supply, b))
              && (Granted(s.supply, a + b) ==> g.state.supply[b..] == s.supply[a + b..])
  {
    hide Granted, IsError;
    GrantedInTurn(s.supply, a, b);
    GrantedLength(s.supply, a + b);
  }

  /** The exact condition for a run to succeed: as many pages as tables are missing on all its
      paths together, as the very next answers of the firmware. */
  lemma {:induction false} RunNeeds(s: State, root: u64, tree: Tree, ops: seq<Op>)
    requires Good(s, root, tree)
    ensures AllSucceed(s, root, ops) <==> Granted(s.supply, Needed(tree, ops))
    ensures AllSucceed(s, root, ops) ==> Run(s, root, ops).supply == s.supply[Needed(tree, ops)..]
    decreases |ops|
  {
    hide Step, Good, GrownPath, Granted, IsError, Needed;
    if ops == [] {
      NothingNeeded(s.supply, tree);
    } else {
      var g := Step(s, root, ops[0]);
      FirstNeeds(s, root, tree, ops);
      if !IsError(g.status) {
        RunNeeds(g.state, root, GrownPath(s, root, tree, ops[0].virt), ops[1..]);
      }
    }
  }

  lemma NothingNeeded(supply: seq<Reply>, tree: Tree)
    ensures Needed(tree, []) == 0 && Granted(supply, 0)
  {
    assert OnPaths([]) - tree.Keys == {};
  }

  /** A run succeeds if and only if the firmware grants the first k requests, where k counts the
      tables on the paths of all its operations that do not exist yet; it takes exactly these. */
  lemma RunSucceeds(s: State, root: u64, ops: seq<Op>)
    requires WellFormed(s, root)
    ensures var k := |OnPaths(ops) - TreeOf(s, root).Keys|;
            && (AllSucceed(s, root, ops) <==>
                k <= |s.supply| && forall i | 0 <= i < k :: s.supply[i].Grant?)
            && (AllSucceed(s, root, ops) ==> Run(s, root, ops).supply == s.supply[k..])
  {
    hide AllSucceed, Run, OnPaths;
    RunNeeds(s, root, TreeOf(s, root), ops);
  }

  /** From a zeroed root every table on the paths of the run has to be granted. */
  lemma FreshRunSucceeds(s: State, root: u64, ops: seq<Op>)
    requires Fresh(s, root)
    ensures var k := |OnPaths(ops)|;
            && (AllSucceed(s, root, ops) <==>
                k <= |s.supply| && forall i | 0 <= i < k :: s.supply[i].Grant?)
            && (AllSucceed(s, root, ops) ==> Run(s, root, ops).supply == s.supply[k..])
  {
    hide AllSucceed, Run, OnPaths, Fresh;
    FreshRoot(s, root);
    RunSucceeds(s, root, ops);
    RootOffPaths(ops);
    assert OnPaths(ops) - map[ROOT := root].Keys == OnPaths(ops);
  }

  lemma {:induction false} RootOffPaths(ops: seq<Op>)
    ensures ROOT !in OnPaths(ops)
    decreases |ops|
  {
    if ops != [] {
      LevelsDiffer(PageNumber(ops[0].virt));
      RootOffPaths(ops[1..]);
    }
  }

  lemma {:induction false} OnPathsAppend(xs: seq<Op>, ys: seq<Op>)
    ensures OnPaths(xs + ys) == OnPaths(xs) + OnPaths(ys)
    decreases |xs|
  {
    hide Path, PageNumber;
    if xs == [] {
      assert xs + ys == ys;
    } else {
      assert (xs + ys)[0] == xs[0] && (xs + ys)[1..] == xs[1..] + ys;
      OnPathsAppend(xs[1..], ys);
    }
  }

  /** The pages that a run is about. */
  function PagesOf(ops: seq<Op>): set<nat>
    decreases |ops|
  {
    if ops == [] then {} else {PageNumber(ops[0].virt)} + PagesOf(ops[1..])
  }

  lemma {:induction false} PagesOfAppend(xs: seq<Op>, ys: seq<Op>)
    ensures PagesOf(xs + ys) == PagesOf(xs) + PagesOf(ys)
    decreases |xs|
  {
    hide PageNumber;
    if xs == [] {
      assert xs + ys == ys;
    } else {
      assert (xs + ys)[0] == xs[0] && (xs + ys)[1..] == xs[1..] + ys;
      PagesOfAppend(xs[1..], ys);
    }
  }

  lemma {:induction false} OnPathsServe(ops: seq<Op>, n: Node)
    ensures n in OnPaths(ops) <==> exists p :: p in PagesOf(ops) && n in Path(p)
    decreases |ops|
  {
    hide PageNumber, Path;
    if ops != [] {
      OnPathsServe(ops[1..], n);
      assert PageNumber(ops[0].virt) in PagesOf(ops);
    }
  }

  /** Two runs get through in one order if and only if they do in the other. */
  lemma OrderDoesNotMatter(s: State, root: u64, xs: seq<Op>, ys: seq<Op>)
    requires WellFormed(s, root)
    ensures AllSucceed(s, root, xs + ys) <==> AllSucceed(s, root, ys + xs)
  {
    hide AllSucceed, OnPaths;
    OnPathsAppend(xs, ys);
    OnPathsAppend(ys, xs);
    RunSucceeds(s, root, xs + ys);
    RunSucceeds(s, root, ys + xs);
    assert OnPaths(xs) + OnPaths(ys) == OnPaths(ys) + OnPaths(xs);
  }

  /** The firmware refuses nothing that is still to come. */
  ghost predicate Generous(s: State) {
    forall i | 0 <= i < |s.supply| :: s.supply[i].Grant?
  }

  lemma DescendSucceeds(s: State, table: u64, entry: nat)
    requires Generous(s) && |s.supply| >= 1
    ensures var g := Descend(s, table, entry);
            g.status == EFI_SUCCESS && Generous(g.state) && |g.state.supply| >= |s.supply| - 1
  {
    hide Store, Load, MadePresent, Address, Present;
    assert forall i | 0 <= i < |s.supply[1..]| :: s.supply[1..][i] == s.supply[i + 1];
  }

  lemma StepSucceeds(s: State, root: u64, op: Op)
    requires Generous(s) && |s.supply| >= 3
    ensures var g := Step(s, root, op);
            g.status == EFI_SUCCESS && Generous(g.state) && |g.state.supply| >= |s.supply| - 3
  {
    hide Descend, Store, EntryPML4, EntryPDPT, EntryPD, EntryPT, LeafEntry, Generous;
    var g3 := Descend(s, root, EntryPML4(op.virt));
    DescendSucceeds(s, root, EntryPML4(op.virt));
    var g2 := Descend(g3.state, g3.table, EntryPDPT(op.virt));
    DescendSucceeds(g3.state, g3.table, EntryPDPT(op.virt));
    DescendSucceeds(g2.state, g2.table, EntryPD(op.virt));
    var g1 := Descend(g2.state, g2.table, EntryPD(op.virt));
    SameSupply(g1.state, Step(s, root, op).state);
  }

  lemma SameSupply(s: State, s': State)
    requires s.supply == s'.supply
    ensures Generous(s) == Generous(s')
  {
  }

  /** A run fails only for want of pages: with three pages in supply for each of its operations
      and no refusal among them, every operation succeeds. */
  lemma {:induction false} EnoughPagesSucceed(s: State, root: u64, ops: seq<Op>)
    requires Generous(s) && |s.supply| >= 3 * |ops|
    ensures AllSucceed(s, root, ops)
    decreases |ops|
  {
    hide Step, Generous;
    if ops != [] {
      StepSucceeds(s, root, ops[0]);
      EnoughPagesSucceed(Step(s, root, ops[0]).state, root, ops[1..]);
    }
  }

  /** A machine whose root is the frame at 0 and whose firmware hands out the next n frames. */
  function Idle(n: nat): State
    requires n < 0x100_0000_0000
  {
    State(map[0 := Zeros(512)], seq(n, i requires 0 <= i < n => Grant((i + 1) * 0x1000, Zeros(512))))
  }

  lemma IdleIsFresh(n: nat)
    requires n < 0x100_0000_0000
    ensures Fresh(Idle(n), 0) && Generous(Idle(n)) && |Idle(n).supply| == n
  {
    var s := Idle(n);
    forall i | 0 <= i < |s.supply| && s.supply[i].Grant?
      ensures IsFrame(s.supply[i].base) && s.supply[i].base !in s.pages
    {
    }
  }

  // ----- Counting entries -----

  /** The present entries above the last level, as pairs of a table's base and an index. */
  ghost function DirectoryEntries(s: State, root: u64): set<(u64, nat)>
    requires WellFormed(s, root)
  {
    EntriesOf(s.pages, TreeOf(s, root))
  }

  ghost predicate IsDirectory(tree: Tree, t: u64) {
    exists n :: n in tree && n.depth < 3 && tree[n] == t
  }

  ghost function EntriesOf(pages: map<u64, Page>, tree: Tree): set<(u64, nat)> {
    set t: u64, e: nat | t in pages && e < 512 && Present(pages[t][e]) && IsDirectory(tree, t) :: (t, e)
  }

  /** The entry that leads to each table below the root. */
  ghost function Slots(tree: Tree): map<Node, (u64, nat)>
    requires forall n | n in tree && n.depth > 0 :: Parent(n) in tree
  {
    map n | n in tree && n.depth > 0 :: (tree[Parent(n)], n.prefix % 512)
  }

  lemma EntriesAreTables(s: State, root: u64)
    requires WellFormed(s, root)
    ensures |DirectoryEntries(s, root)| == |TreeOf(s, root)| - 1
  {
    var tree := TreeOf(s, root);
    SlotsInjective(s.pages, root, tree);
    InjectiveImage(Slots(tree));
    EntriesAreSlots(s.pages, root, tree);
    SlotCount(s.pages, root, tree);
  }

  lemma SlotCount(pages: map<u64, Page>, root: u64, tree: Tree)
    requires Forms(pages, root, tree)
    ensures |Slots(tree)| == |tree| - 1
  {
    var below := tree.Keys - {ROOT};
    assert |below| == |tree| - 1;
    assert Slots(tree).Keys == below by {
      forall n | n in tree
        ensures n.depth == 0 <==> n == ROOT
      {
        assert IsNode(n);
      }
    }
  }

  lemma SlotsInjective(pages: map<u64, Page>, root: u64, tree: Tree)
    requires Forms(pages, root, tree)
    ensures Injective(Slots(tree))
  {
    forall n, m | n in Slots(tree) && m in Slots(tree) && Slots(tree)[n] == Slots(tree)[m]
      ensures n == m
    {
      assert Parent(n) == Parent(m);
      assert n == Child(Parent(n), n.prefix % 512) && m == Child(Parent(m), m.prefix % 512);
    }
  }

  lemma EntriesAreSlots(pages: map<u64, Page>, root: u64, tree: Tree)
    requires Forms(pages, root, tree)
    ensures EntriesOf(pages, tree) == Slots(tree).Values
  {
    forall x | x in EntriesOf(pages, tree)
      ensures x in Slots(tree).Values
    {
      EntryIsSlot(pages, root, tree, x.0, x.1);
    }
    forall x | x in Slots(tree).Values
      ensures x in EntriesOf(pages, tree)
    {
      var n :| n in Slots(tree) && Slots(tree)[n] == x;
      SlotIsEntry(pages, root, tree, n);
    }
  }

  lemma EntryIsSlot(pages: map<u64, Page>, root: u64, tree: Tree, t: u64, e: nat)
    requires Forms(pages, root, tree) && (t, e) in EntriesOf(pages, tree)
    ensures (t, e) in Slots(tree).Values
  {
    var n :| n in tree && n.depth < 3 && tree[n] == t;
    WalkStep(pages, root, tree, n, e);
    ChildParent(n, e);
    assert Slots(tree)[Child(n, e)] == (t, e);
  }

  lemma SlotIsEntry(pages: map<u64, Page>, root: u64, tree: Tree, n: Node)
    requires Forms(pages, root, tree) && n in tree && n.depth > 0
    ensures (tree[Parent(n)], n.prefix % 512) in EntriesOf(pages, tree)
  {
    var m, e := Parent(n), n.prefix % 512;
    assert n == Child(m, e);
    WalkStep(pages, root, tree, m, e);
    assert IsDirectory(tree, tree[m]);
  }

  ghost predicate Injective<K, V>(f: map<K, V>) {
    forall n, m | n in f && m in f && f[n] == f[m] :: n == m
  }

  lemma {:induction false} InjectiveImage<K, V>(f: map<K, V>)
    requires Injective(f)
    ensures |f.Values| == |f|
    decreases |f|
  {
    if f.Keys != {} {
      var n :| n in f;
      var g := f - {n};
      assert f.Values == g.Values + {f[n]} by {
        assert forall m | m in g :: g[m] == f[m];
        forall y | y in f.Values
          ensures y in g.Values + {f[n]}
        {
          var m :| m in f && f[m] == y;
          if m != n {
            assert m in g && g[m] == y;
          }
        }
      }
      assert f[n] !in g.Values;
      assert |f| == |g| + 1 by { assert f.Keys == g.Keys + {n}; }
      InjectiveImage(g);
    } else {
      assert f == map[];
    }
  }
}
