/** The mapping loops of `efi_main`: what a loop over a range maps, what it leaves alone, what
    it costs, and that loops over disjoint ranges can be exchanged. */
module Ranges {
  import opened Bits
  import opened PagingSpec
  import opened PagingProofs
  import opened PagingTheorems
  import opened PagingRuns

  const PAGES: nat := 0x10_0000_0000

  /** 64-bit wrap-around. */
  function Wrap(x: nat): u64 {
    x % 0x1_0000_0000_0000_0000
  }

  /** The number of rounds of `for (i = 0; i < n; i += 0x1000)`. */
  function Rounds(n: nat): nat {
    (n + 0xfff) / 0x1000
  }

  /** The rounds of a loop cover its n bytes and reach less than a page further. */
  lemma RoundsCover(n: nat)
    ensures n <= Rounds(n) * 0x1000 < n + 0x1000
  {
  }

  /** The counter of such a loop in 64 bits reaches n exactly for n up to 2^64 - 0x1000; above
      that it wraps to 0 and the loop never ends. */
  lemma CounterReaches(n: u64)
    ensures (exists k: nat :: Wrap(k * 0x1000) >= n) <==> n <= 0xFFFF_FFFF_FFFF_F000
  {
    if n <= 0xFFFF_FFFF_FFFF_F000 {
      var k := 0xF_FFFF_FFFF_FFFF;
      assert Wrap(k * 0x1000) >= n;
    } else {
      forall k: nat
        ensures Wrap(k * 0x1000) < n
      {
        CounterIsAPage(k);
      }
    }
  }

  lemma CounterIsAPage(k: nat)
    ensures Wrap(k * 0x1000) <= 0xFFFF_FFFF_FFFF_F000
  {
    DivByParts(k * 0x1000, 0x1000, 0x10_0000_0000_0000);
    DivUnique(k * 0x1000, 0x1000, k, 0);
  }

  function PageOp(phys: u64, virt: u64, k: nat, cached: bool): Op {
    Map(Wrap(phys + k * 0x1000), Wrap(virt + k * 0x1000), cached)
  }

  function RangeOps(phys: u64, virt: u64, count: nat, cached: bool): seq<Op> {
    if count == 0 then []
    else RangeOps(phys, virt, count - 1, cached) + [PageOp(phys, virt, count - 1, cached)]
  }

  /** How far page p lies after page q, going around. */
  function Distance(p: nat, q: nat): nat
    requires p < PAGES && q < PAGES
  {
    if p >= q then p - q else p + PAGES - q
  }

  /** The map after all rounds of a loop. */
  function RangeView(m: map<nat, Mapping>, phys: u64, virt: u64, count: nat, cached: bool): map<nat, Mapping> {
    if count == 0 then m
    else
      var op := PageOp(phys, virt, count - 1, cached);
      RangeView(m, phys, virt, count - 1, cached)[PageNumber(op.virt) := MappingFor(op.phys, cached)]
  }

  lemma PageOfRound(virt: u64, k: nat)
    ensures PageNumber(Wrap(virt + k * 0x1000)) == (PageNumber(virt) + k) % PAGES
  {
    var x := virt + k * 0x1000;
    DivByParts(x, 0x1000, 0x10_0000_0000_0000);
    DivByParts(x / 0x1000, PAGES, 0x1_0000);
    assert x / 0x1000 == virt / 0x1000 + k;
    ModOfSum(virt / 0x1000, k);
  }

  lemma ModOfSum(a: nat, k: nat)
    ensures (a + k) % PAGES == (a % PAGES + k) % PAGES
  {
  }

  lemma {:induction false} RangeRuns(s: State, root: u64, phys: u64, virt: u64, count: nat, cached: bool)
    requires WellFormed(s, root) && AllSucceed(s, root, RangeOps(phys, virt, count, cached))
    ensures var s' := Run(s, root, RangeOps(phys, virt, count, cached));
            WellFormed(s', root) && View(s'.pages, root) == RangeView(View(s.pages, root), phys, virt, count, cached)
  {
    hide MMap, View, MappingFor, PageNumber, WellFormed;
    if count > 0 {
      var before, op := RangeOps(phys, virt, count - 1, cached), PageOp(phys, virt, count - 1, cached);
      RunAppend(s, root, before, [op]);
      RangeRuns(s, root, phys, virt, count - 1, cached);
      OneStep(Run(s, root, before), root, op);
      MMapRefines(Run(s, root, before), root, op.phys, op.virt, cached);
    }
  }

  lemma OneStep(s: State, root: u64, op: Op)
    ensures Run(s, root, [op]) == Step(s, root, op).state
    ensures AllSucceed(s, root, [op]) <==> !IsError(Step(s, root, op).status)
  {
    assert [op][0] == op && [op][1..] == [];
  }

  /** The closed form of a loop: round d maps the page d places after the first one, and no
      other page is touched. */
  lemma {:induction false} RangeLookup(m: map<nat, Mapping>, phys: u64, virt: u64, count: nat, cached: bool, p: nat)
    requires count <= PAGES && p < PAGES
    ensures var d := Distance(p, PageNumber(virt));
            Lookup(RangeView(m, phys, virt, count, cached), p)
            == if d < count then MappingFor(Wrap(phys + d * 0x1000), cached) else Lookup(m, p)
  {
    if count > 0 {
      RangeLookup(m, phys, virt, count - 1, cached, p);
      PageOfRound(virt, count - 1);
      RoundOfPage(p, PageNumber(virt), count - 1);
    }
  }

  lemma RoundOfPage(p: nat, q: nat, k: nat)
    requires p < PAGES && q < PAGES && k < PAGES
    ensures p == (q + k) % PAGES <==> Distance(p, q) == k
  {
  }

  /** Offset for offset: when no call fails, a loop over n bytes from a page-aligned `virt` maps
      every byte of the rounded-up range to the byte of `phys` at the same offset, exactly when
      `phys` is page-aligned as well. */
  lemma RangeTranslates(s: State, root: u64, phys: u64, virt: u64, n: nat, cached: bool, o: nat)
    requires WellFormed(s, root) && AllSucceed(s, root, RangeOps(phys, virt, Rounds(n), cached))
    requires virt % 0x1000 == 0 && Rounds(n) <= PAGES && o < Rounds(n) * 0x1000
    requires phys + o < 0x10_0000_0000_0000
    ensures var s' := Run(s, root, RangeOps(phys, virt, Rounds(n), cached));
            var m := Walk(s'.pages, root, Wrap(virt + o));
            m.Mapped? && (m.frame + Wrap(virt + o) % 0x1000 == phys + o <==> phys % 0x1000 == 0)
  {
    hide Run, AllSucceed, View, Walk, MappingFor, PageNumber, WellFormed, Distance, RangeOps, RangeView, Wrap, Rounds;
    var s' := Run(s, root, RangeOps(phys, virt, Rounds(n), cached));
    var k := o / 0x1000;
    RangeRuns(s, root, phys, virt, Rounds(n), cached);
    WalkIsTheMap(s'.pages, root, Wrap(virt + o));
    OffsetInPage(virt, o);
    PageOfRound(virt, k);
    var p := PageNumber(Wrap(virt + o));
    RoundOfPage(p, PageNumber(virt), k);
    RangeLookup(View(s.pages, root), phys, virt, Rounds(n), cached, p);
    FrameOfOffset(phys, o, cached);
  }

  lemma OffsetInPage(virt: u64, o: nat)
    requires virt % 0x1000 == 0
    ensures PageNumber(Wrap(virt + o)) == PageNumber(Wrap(virt + o / 0x1000 * 0x1000))
    ensures Wrap(virt + o) % 0x1000 == o % 0x1000
  {
    hide PageNumber;
    var x, y := virt + o, virt + o / 0x1000 * 0x1000;
    DivByParts(x, 0x1000, 0x10_0000_0000_0000);
    DivByParts(y, 0x1000, 0x10_0000_0000_0000);
    var p, q := virt / 0x1000, o / 0x1000;
    DivUnique(x, 0x1000, p + q, o % 0x1000);
    DivUnique(y, 0x1000, p + q, 0);
    SamePageNumber(Wrap(x), Wrap(y));
  }

  lemma SamePageNumber(v: nat, w: nat)
    requires v / 0x1000 == w / 0x1000
    ensures PageNumber(v) == PageNumber(w)
  {
  }

  lemma FrameOfOffset(phys: u64, o: nat, cached: bool)
    requires phys + o < 0x10_0000_0000_0000
    ensures var m := MappingFor(Wrap(phys + o / 0x1000 * 0x1000), cached);
            m.Mapped? && (m.frame + o % 0x1000 == phys + o <==> phys % 0x1000 == 0)
  {
    var x := phys + o / 0x1000 * 0x1000;
    assert x <= phys + o;
    assert Wrap(x) == x;
    assert x / 0x1000 % 0x100_0000_0000 == x / 0x1000;
    assert x / 0x1000 * 0x1000 == x - x % 0x1000 && x % 0x1000 == phys % 0x1000;
  }

  /** Whatever fails on the way: a page outside the range keeps its mapping, and a page of the
      range has its old mapping or the one the loop gives it. */
  lemma {:induction false} RangeWithFailures(s: State, root: u64, phys: u64, virt: u64, count: nat, cached: bool, p: nat)
    requires WellFormed(s, root) && count <= PAGES && p < PAGES
    ensures var s' := Run(s, root, RangeOps(phys, virt, count, cached));
            var d := Distance(p, PageNumber(virt));
            && WellFormed(s', root)
            && (|| Lookup(View(s'.pages, root), p) == Lookup(View(s.pages, root), p)
                || (d < count
                    && Lookup(View(s'.pages, root), p) == MappingFor(Wrap(phys + d * 0x1000), cached)))
  {
    hide MMap, View, MappingFor, PageNumber, WellFormed, Distance;
    if count > 0 {
      var before, op := RangeOps(phys, virt, count - 1, cached), PageOp(phys, virt, count - 1, cached);
      RunAppend(s, root, before, [op]);
      RangeWithFailures(s, root, phys, virt, count - 1, cached, p);
      OneStep(Run(s, root, before), root, op);
      MMapRefines(Run(s, root, before), root, op.phys, op.virt, cached);
      PageOfRound(virt, count - 1);
      RoundOfPage(p, PageNumber(virt), count - 1);
    }
  }

  // ----- Exchanging loops -----

  datatype Range = Range(phys: u64, virt: u64, count: nat, cached: bool) {
    function Ops(): seq<Op> {
      RangeOps(phys, virt, count, cached)
    }

    predicate Holds(p: nat)
      requires p < PAGES
    {
      Distance(p, PageNumber(virt)) < count
    }

    function MappingAt(p: nat): Mapping
      requires p < PAGES
    {
      MappingFor(Wrap(phys + Distance(p, PageNumber(virt)) * 0x1000), cached)
    }
  }

  /** The pages that a loop is about. */
  lemma {:induction false} PagesOfRange(phys: u64, virt: u64, count: nat, cached: bool, p: nat)
    requires count <= PAGES && p < PAGES
    ensures p in PagesOf(RangeOps(phys, virt, count, cached)) <==> Distance(p, PageNumber(virt)) < count
    decreases count
  {
    hide PageNumber, Distance, Wrap;
    if count > 0 {
      var op := PageOp(phys, virt, count - 1, cached);
      PagesOfRange(phys, virt, count - 1, cached, p);
      PagesOfAppend(RangeOps(phys, virt, count - 1, cached), [op]);
      assert PagesOf([op]) == {PageNumber(op.virt)} by { PagesOfOne(op); }
      PageOfRound(virt, count - 1);
      RoundOfPage(p, PageNumber(virt), count - 1);
    } else {
      assert Distance(p, PageNumber(virt)) >= 0;
    }
  }

  lemma PagesOfOne(op: Op)
    ensures PagesOf([op]) == {PageNumber(op.virt)}
  {
    assert [op][1..] == [];
  }

  lemma RangeOutcome(s: State, root: u64, r: Range, p: nat)
    requires WellFormed(s, root) && AllSucceed(s, root, r.Ops()) && r.count <= PAGES && p < PAGES
    ensures var s' := Run(s, root, r.Ops());
            WellFormed(s', root)
            && Lookup(View(s'.pages, root), p) == if r.Holds(p) then r.MappingAt(p) else Lookup(View(s.pages, root), p)
  {
    hide Run, AllSucceed, View, MappingFor, PageNumber, WellFormed, Distance, RangeOps, RangeView;
    RangeRuns(s, root, r.phys, r.virt, r.count, r.cached);
    RangeLookup(View(s.pages, root), r.phys, r.virt, r.count, r.cached, p);
  }

  /** Two loops over disjoint ranges get through in one order if and only if they do in the
      other, and then give the same translations. */
  lemma RangesCommute(s: State, root: u64, a: Range, b: Range, virt: nat)
    requires WellFormed(s, root) && a.count <= PAGES && b.count <= PAGES
    requires forall p: nat | p < PAGES :: !(a.Holds(p) && b.Holds(p))
    ensures AllSucceed(s, root, a.Ops() + b.Ops()) <==> AllSucceed(s, root, b.Ops() + a.Ops())
    ensures AllSucceed(s, root, a.Ops() + b.Ops()) ==>
              Walk(Run(s, root, a.Ops() + b.Ops()).pages, root, virt)
              == Walk(Run(s, root, b.Ops() + a.Ops()).pages, root, virt)
  {
    hide Run, AllSucceed, View, WellFormed, Walk, PageNumber, RangeOps;
    OrderDoesNotMatter(s, root, a.Ops(), b.Ops());
    if AllSucceed(s, root, a.Ops() + b.Ops()) {
      var p := PageNumber(virt);
      RunAppend(s, root, a.Ops(), b.Ops());
      RunAppend(s, root, b.Ops(), a.Ops());
      RangeOutcome(s, root, a, p);
      RangeOutcome(s, root, b, p);
      RangeOutcome(Run(s, root, a.Ops()), root, b, p);
      RangeOutcome(Run(s, root, b.Ops()), root, a, p);
      WalkIsTheMap(Run(s, root, a.Ops() + b.Ops()).pages, root, virt);
      WalkIsTheMap(Run(s, root, b.Ops() + a.Ops()).pages, root, virt);
    }
  }

  // ----- The cost of a range -----

  /** How many tables of each level serve the pages a..b. */
  function TablesFor(a: nat, b: nat): int {
    (b / 0x800_0000 - a / 0x800_0000 + 1) + (b / 0x4_0000 - a / 0x4_0000 + 1) + (b / 512 - a / 512 + 1)
  }

  ghost predicate Covers(tree: Tree, a: nat, b: nat) {
    forall n :: n in tree <==> Covered(n, a, b)
  }

  predicate Covered(n: Node, a: nat, b: nat) {
    n == ROOT || (1 <= n.depth <= 3 && Serving(a, n.depth).prefix <= n.prefix <= Serving(b, n.depth).prefix)
  }

  lemma CoverGrows(tree: Tree, tree': Tree, a: nat, b: nat)
    requires a <= b && Covers(tree, a, b) && GrowsByPath(tree, tree', b + 1)
    ensures Covers(tree', a, b + 1)
    ensures TablesFor(a, b + 1) == TablesFor(a, b) + Missing(tree, b + 1)
  {
    hide Serving;
    PrefixSteps(a, b, 1);
    PrefixSteps(a, b, 2);
    PrefixSteps(a, b, 3);
    CoverCount(tree, a, b);
    forall n
      ensures n in tree' <==> Covered(n, a, b + 1)
    {
      assert n in tree' <==> n in tree || n == Serving(b + 1, 1) || n == Serving(b + 1, 2) || n == Serving(b + 1, 3);
      assert n.depth == 1 || n.depth == 2 || n.depth == 3 || n.depth == 0 || n.depth > 3;
    }
  }

  lemma PrefixSteps(a: nat, b: nat, d: nat)
    requires a <= b && 1 <= d <= 3
    ensures Serving(b, d).prefix <= Serving(b + 1, d).prefix <= Serving(b, d).prefix + 1
    ensures Serving(a, d).prefix <= Serving(b, d).prefix
    ensures Serving(b + 1, d) == Node(d, Serving(b + 1, d).prefix)
  {
  }

  lemma CoverCount(tree: Tree, a: nat, b: nat)
    requires a <= b && Covers(tree, a, b)
    ensures TablesFor(a, b + 1) == TablesFor(a, b) + Missing(tree, b + 1)
  {
    hide Serving;
    forall d: nat | 1 <= d <= 3
      ensures Serving(b + 1, d) in tree <==> Serving(b + 1, d).prefix == Serving(b, d).prefix
    {
      PrefixSteps(a, b, d);
      assert Serving(b + 1, d) in tree <==> Covered(Serving(b + 1, d), a, b);
    }
    Prefixes(b);
    Prefixes(b + 1);
    PrefixSteps(a, b, 1);
    PrefixSteps(a, b, 2);
    PrefixSteps(a, b, 3);
  }

  lemma Prefixes(p: nat)
    ensures Serving(p, 1).prefix == p / 0x800_0000 && Serving(p, 2).prefix == p / 0x4_0000
    ensures Serving(p, 3).prefix == p / 512
  {
  }

  /** s' is what n rounds of a loop that starts at page a made of s. */
  ghost predicate Paid(s: State, root: u64, s': State, a: nat, n: nat) {
    && WellFormed(s', root)
    && (n == 0 ==> s' == s)
    && (n > 0 ==>
         && |s'.pages| - |s.pages| == TablesFor(a, a + n - 1)
         && |TreeOf(s', root)| == 1 + TablesFor(a, a + n - 1)
         && Covers(TreeOf(s', root), a, a + n - 1))
  }

  lemma PaidStep(s: State, root: u64, s0: State, a: nat, n: nat, op: Op)
    requires Fresh(s, root) && Paid(s, root, s0, a, n)
    requires PageNumber(op.virt) == a + n && !IsError(Step(s0, root, op).status)
    ensures Paid(s, root, Step(s0, root, op).state, a, n + 1)
  {
    hide Step, View, WellFormed, Good, TablesFor, Covers, GrowsByPath, Missing, PageNumber, Fresh, TreeOf, Serving;
    StepCost(s0, root, op);
    var tree, tree' := TreeOf(s0, root), TreeOf(Step(s0, root, op).state, root);
    if n > 0 {
      CoverGrows(tree, tree', a, a + n - 1);
    } else {
      FreshRoot(s, root);
      CoverStarts(tree', root, a);
    }
  }

  /** From a zeroed root, a loop that maps the pages a..b takes exactly as many pages from the
      firmware as there are tables serving a..b. */
  lemma RangeCost(s: State, root: u64, phys: u64, virt: u64, count: nat, cached: bool)
    requires Fresh(s, root) && AllSucceed(s, root, RangeOps(phys, virt, count, cached))
    requires count >= 1 && PageNumber(virt) + count <= PAGES
    ensures var a, b := PageNumber(virt), PageNumber(virt) + count - 1;
            |Run(s, root, RangeOps(phys, virt, count, cached)).pages| - |s.pages| == TablesFor(a, b)
  {
    hide AllSucceed, Run, RangeOps, Fresh, WellFormed, Good, TablesFor, Covers, TreeOf, PageNumber;
    RangePays(s, root, phys, virt, count, cached);
  }

  lemma {:induction false} RangePays(s: State, root: u64, phys: u64, virt: u64, count: nat, cached: bool)
    requires Fresh(s, root) && AllSucceed(s, root, RangeOps(phys, virt, count, cached))
    requires PageNumber(virt) + count <= PAGES
    ensures Paid(s, root, Run(s, root, RangeOps(phys, virt, count, cached)), PageNumber(virt), count)
  {
    hide Step, Fresh, WellFormed, Good, TablesFor, Covers, TreeOf, PageNumber;
    if count == 0 {
      FreshRoot(s, root);
    } else {
      hide Paid;
      var before, op := RangeOps(phys, virt, count - 1, cached), PageOp(phys, virt, count - 1, cached);
      RunAppend(s, root, before, [op]);
      RangePays(s, root, phys, virt, count - 1, cached);
      OneStep(Run(s, root, before), root, op);
      PageOfRound(virt, count - 1);
      PaidStep(s, root, Run(s, root, before), PageNumber(virt), count - 1, op);
    }
  }

  lemma CoverStarts(tree': Tree, root: u64, a: nat)
    requires GrowsByPath(map[ROOT := root], tree', a)
    ensures Covers(tree', a, a) && Missing(map[ROOT := root], a) == 3 == TablesFor(a, a)
  {
  }

  /** A successful operation takes exactly the missing tables from the firmware. */
  lemma StepCost(s: State, root: u64, op: Op)
    requires WellFormed(s, root) && !IsError(Step(s, root, op).status)
    ensures var s' := Step(s, root, op).state;
            && WellFormed(s', root)
            && |s'.pages| - |s.pages| == |TreeOf(s', root)| - |TreeOf(s, root)|
            && |s'.pages| - |s.pages| == Missing(TreeOf(s, root), PageNumber(op.virt))
            && GrowsByPath(TreeOf(s, root), TreeOf(s', root), PageNumber(op.virt))
  {
    var tree := TreeOf(s, root);
    var tree' := GrownPath(s, root, tree, op.virt);
    var s' := Step(s, root, op).state;
    StepRefines(s, root, tree, op);
    PathMakesTheMissing(s, root, tree, op.virt);
    TreeUnique(s'.pages, root, TreeOf(s', root), tree');
  }

  /** The cost of one call in terms of the processor's walk: a call that gets through takes as
      many pages as there are levels that the walk of its address did not reach, and a call
      that fails takes fewer. */
  lemma CallCost(s: State, root: u64, op: Op)
    requires WellFormed(s, root)
    ensures var g := Step(s, root, op);
            var missing := 3 - WalkDepth(s.pages, root, op.virt);
            && (if IsError(g.status) then 0 <= |g.state.pages| - |s.pages| < missing
                else |g.state.pages| - |s.pages| == missing && WalkDepth(g.state.pages, root, op.virt) == 3)
  {
    var tree := TreeOf(s, root);
    var g := Step(s, root, op);
    StepRefines(s, root, tree, op);
    PathMakesTheMissing(s, root, tree, op.virt);
    WalkDescends(s.pages, root, tree, op.virt);
    WalkDescends(g.state.pages, root, GrownPath(s, root, tree, op.virt), op.virt);
  }
}
