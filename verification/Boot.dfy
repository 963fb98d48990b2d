/** The address space that `efi_main` builds: the virtual layout, the loops that fill it, and
    what the processor finds there when the kernel is entered. */
module Boot {
  import opened Bits
  import opened PagingSpec
  import opened PagingProofs
  import opened PagingTheorems
  import opened PagingRuns
  import opened Ranges
  import opened BootStub

  const HIGHER_HALF_START: u64 := 0xffff_8000_0000_0000
  const STACK_SIZE: u64 := 0x5_0000
  const STACK_START: u64 := 0xffff_ffff_ffff_f000 - 0x5_0000

  /** What the firmware and the files decide: where things lie in physical memory, and how many
      bytes they have. */
  datatype Parameters = Parameters(
    imageBase: u64, imageSize: u64, kernelPhys: u64, fileSize: u64, stackPhys: u64,
    frameMapPhys: u64, frameMapSize: u64, framebufferPhys: u64, framebufferSize: u64)
  {
    // ----- Offsets into the higher half, as the variable CurrentPage takes them -----

    function KernelBytes(): nat {
      (fileSize + 0xfff) / 0x1000 * 0x1000 + 0x1_0000
    }

    /** The frame map is given sixteen times the room it needs. */
    function FramebufferAt(): nat {
      KernelBytes() + (frameMapSize + 0xfff) / 0x1000 * 0x1_0000
    }

    function WindowAt(): nat {
      (FramebufferAt() + framebufferSize) / 0x20_0000 * 0x20_0000 + 0x20_0000
    }

    /** Everything before the stack fits below it, and the image of the stub lies in the lower
        half of the address space. */
    predicate Fits() {
      && WindowAt() + 0x20_0000 <= STACK_START - HIGHER_HALF_START
      && imageBase / 0x1000 + Rounds(imageSize) <= 0x8_0000_0000
    }

    function Image(): Range {
      Range(imageBase, imageBase, Rounds(imageSize), false)
    }

    function Kernel(): Range {
      Range(kernelPhys, HIGHER_HALF_START, Rounds(KernelBytes()), true)
    }

    function Stack(): Range {
      Range(stackPhys, STACK_START, Rounds(STACK_SIZE), true)
    }

    function FrameMap(): Range
      requires Fits()
    {
      Range(frameMapPhys, HIGHER_HALF_START + KernelBytes(), Rounds(frameMapSize), true)
    }

    function Framebuffer(): Range
      requires Fits()
    {
      Range(framebufferPhys, HIGHER_HALF_START + FramebufferAt(), Rounds(framebufferSize), false)
    }

    /** The ranges in the order in which the loops map them. */
    function Regions(): seq<Range>
      requires Fits()
    {
      [Image(), Kernel(), Stack(), FrameMap(), Framebuffer()]
    }

    function WindowStart(): u64
      requires Fits()
    {
      HIGHER_HALF_START + WindowAt()
    }

    function Ops(): seq<Op>
      requires Fits()
    {
      OpsOf(Regions()) + [Window(WindowStart())]
    }
  }

  function OpsOf(ranges: seq<Range>): seq<Op> {
    if ranges == [] then [] else ranges[0].Ops() + OpsOf(ranges[1..])
  }

  // ----- The layout -----

  /** The last page of a range, plus one. */
  function End(r: Range): nat {
    PageNumber(r.virt) + r.count
  }

  lemma PageOfHigherHalf(o: nat)
    requires o < 0x8000_0000_0000
    ensures PageNumber(HIGHER_HALF_START + o) == 0x8_0000_0000 + o / 0x1000
  {
    assert (HIGHER_HALF_START + o) / 0x1000 == 0xf_fff8_0000_0000 + o / 0x1000;
  }

  lemma PageOfLowerHalf(a: u64)
    requires a / 0x1000 <= 0x8_0000_0000
    ensures PageNumber(a) == a / 0x1000
  {
  }

  /** The regions lie in the order image, kernel, frame map, framebuffer, window (with all of
      its 512 slots), stack, and no region reaches into the next. */
  lemma LayoutInOrder(b: Parameters)
    requires b.Fits()
    ensures var w := PageNumber(b.WindowStart());
            && End(b.Image()) <= PageNumber(b.Kernel().virt)
            && End(b.Kernel()) <= PageNumber(b.FrameMap().virt)
            && End(b.FrameMap()) <= PageNumber(b.Framebuffer().virt)
            && End(b.Framebuffer()) <= w
            && w + 512 <= PageNumber(b.Stack().virt)
            && End(b.Stack()) <= PAGES
            && w % 512 == 0 && b.WindowStart() % 0x20_0000 == 0
  {
    hide Parameters.KernelBytes, Parameters.FramebufferAt, Parameters.WindowAt, PageNumber, Rounds;
    OffsetsInOrder(b);
    PageOfLowerHalf(b.imageBase);
    PageOfHigherHalf(0);
    PageOfHigherHalf(b.KernelBytes());
    PageOfHigherHalf(b.FramebufferAt());
    PageOfHigherHalf(b.WindowAt());
    PageOfHigherHalf(STACK_START - HIGHER_HALF_START);
    AlignedWindow(b.WindowAt());
  }

  /** The offsets into the higher half, in pages. */
  lemma OffsetsInOrder(b: Parameters)
    requires b.Fits()
    ensures Rounds(b.KernelBytes()) == b.KernelBytes() / 0x1000
    ensures b.KernelBytes() / 0x1000 + Rounds(b.frameMapSize) <= b.FramebufferAt() / 0x1000
    ensures b.FramebufferAt() / 0x1000 + Rounds(b.framebufferSize) <= b.WindowAt() / 0x1000
    ensures b.WindowAt() % 0x20_0000 == 0
    ensures Rounds(STACK_SIZE) == 0x50
    ensures b.KernelBytes() < 0x8000_0000_0000 && b.FramebufferAt() < 0x8000_0000_0000
  {
    hide Rounds, Parameters.Fits, Parameters.WindowAt;
    WholePages(b.fileSize);
    RoundsOfStack();
    var k, m := Rounds(b.fileSize) + 0x10, Rounds(b.frameMapSize);
    assert b.KernelBytes() == 0x1000 * k && b.FramebufferAt() == 0x1000 * (k + 0x10 * m) by { RoundsMean(b); }
    PageMultiple(k);
    PageMultiple(k + 0x10 * m);
    WindowOffset(b);
  }

  lemma RoundsMean(b: Parameters)
    ensures b.KernelBytes() == 0x1000 * (Rounds(b.fileSize) + 0x10)
    ensures b.FramebufferAt() == b.KernelBytes() + 0x1_0000 * Rounds(b.frameMapSize)
  {
  }

  lemma RoundsOfStack()
    ensures Rounds(STACK_SIZE) == 0x50
  {
  }

  lemma PageMultiple(q: nat)
    ensures 0x1000 * q / 0x1000 == q && 0x1000 * q % 0x1000 == 0
  {
  }

  lemma WindowOffset(b: Parameters)
    requires b.Fits() && b.FramebufferAt() % 0x1000 == 0
    ensures b.FramebufferAt() / 0x1000 + Rounds(b.framebufferSize) <= b.WindowAt() / 0x1000
    ensures b.WindowAt() % 0x20_0000 == 0
    ensures b.KernelBytes() <= b.FramebufferAt() < 0x8000_0000_0000
  {
    hide Rounds, Parameters.KernelBytes;
    WindowAligned(b.FramebufferAt(), b.framebufferSize);
  }

  lemma WholePages(n: nat)
    ensures Rounds(Rounds(n) * 0x1000 + 0x1_0000) == Rounds(n) + 0x10
  {
  }

  lemma AlignedWindow(o: nat)
    requires o % 0x20_0000 == 0
    ensures (HIGHER_HALF_START + o) % 0x20_0000 == 0 && (0x8_0000_0000 + o / 0x1000) % 512 == 0
    ensures 0x8_0000_0000 + o / 0x1000 + 512 == 0x8_0000_0000 + (o + 0x20_0000) / 0x1000
  {
    var k := o / 0x20_0000;
    assert o == 0x20_0000 * k;
    assert HIGHER_HALF_START == 0x20_0000 * 0x7ff_fc00_0000;
    DivUnique(HIGHER_HALF_START + o, 0x20_0000, 0x7ff_fc00_0000 + k, 0);
    assert o / 0x1000 == 512 * k && (o + 0x20_0000) / 0x1000 == 512 * (k + 1);
    DivUnique(0x8_0000_0000 + 512 * k, 512, 0x400_0000 + k, 0);
  }

  lemma WindowAligned(f: nat, n: nat)
    requires f % 0x1000 == 0
    ensures var w := (f + n) / 0x20_0000 * 0x20_0000 + 0x20_0000;
            f / 0x1000 + Rounds(n) <= w / 0x1000 && w / 0x1000 % 512 == 0 && w % 0x20_0000 == 0
  {
    var k := (f + n) / 0x20_0000 + 1;
    assert f + n < k * 0x20_0000;
    assert k * 0x20_0000 / 0x1000 == k * 512;
  }

  lemma HoldsInOrder(r: Range, p: nat)
    requires p < PAGES && End(r) <= PAGES
    ensures r.Holds(p) <==> PageNumber(r.virt) <= p < End(r)
  {
  }

  /** No page belongs to two regions, and none of the 512 slots of the window to any. */
  lemma RegionsDisjoint(b: Parameters, p: nat)
    requires b.Fits() && p < PAGES
    ensures forall i, j | 0 <= i < j < 5 :: !(b.Regions()[i].Holds(p) && b.Regions()[j].Holds(p))
    ensures var w := PageNumber(b.WindowStart());
            w <= p < w + 512 ==> forall i | 0 <= i < 5 :: !b.Regions()[i].Holds(p)
    ensures forall i | 0 <= i < 5 :: b.Regions()[i].count <= PAGES
  {
    hide PageNumber, Parameters.WindowAt, Parameters.FramebufferAt, Parameters.KernelBytes, Rounds;
    LayoutInOrder(b);
    HoldsInOrder(b.Image(), p);
    HoldsInOrder(b.Kernel(), p);
    HoldsInOrder(b.FrameMap(), p);
    HoldsInOrder(b.Framebuffer(), p);
    HoldsInOrder(b.Stack(), p);
  }

  // ----- All loops together -----

  ghost predicate Disjoint(ranges: seq<Range>, p: nat)
    requires p < PAGES
  {
    forall i, j | 0 <= i < j < |ranges| :: !(ranges[i].Holds(p) && ranges[j].Holds(p))
  }

  /** What a sequence of loops makes of page p: the mapping of the range that holds it, or what
      was there before. */
  lemma {:induction false} LoopsOutcome(s: State, root: u64, ranges: seq<Range>, p: nat)
    requires WellFormed(s, root) && p < PAGES && Disjoint(ranges, p)
    requires forall i | 0 <= i < |ranges| :: ranges[i].count <= PAGES
    requires AllSucceed(s, root, OpsOf(ranges))
    ensures var s' := Run(s, root, OpsOf(ranges));
            && WellFormed(s', root)
            && (forall i | 0 <= i < |ranges| && ranges[i].Holds(p) ::
                 Lookup(View(s'.pages, root), p) == ranges[i].MappingAt(p))
            && ((forall i | 0 <= i < |ranges| :: !ranges[i].Holds(p)) ==>
                 Lookup(View(s'.pages, root), p) == Lookup(View(s.pages, root), p))
    decreases |ranges|
  {
    hide View, WellFormed, Range.Holds, Range.MappingAt, Range.Ops, Lookup;
    if ranges != [] {
      var r, rest := ranges[0], ranges[1..];
      RunAppend(s, root, r.Ops(), OpsOf(rest));
      RangeOutcome(s, root, r, p);
      var s1 := Run(s, root, r.Ops());
      assert forall i | 0 <= i < |rest| :: rest[i] == ranges[i + 1];
      LoopsOutcome(s1, root, rest, p);
      var m := Lookup(View(Run(s, root, OpsOf(ranges)).pages, root), p);
      forall i | 0 <= i < |ranges| && ranges[i].Holds(p)
        ensures m == ranges[i].MappingAt(p)
      {
        if i > 0 {
          assert rest[i - 1].Holds(p);
        } else {
          assert forall j | 0 <= j < |rest| :: !rest[j].Holds(p) by {
            assert forall j | 0 <= j < |rest| :: rest[j] == ranges[j + 1];
          }
        }
      }
    }
  }

  /** Whatever fails on the way, a page ends with its old mapping or the one of a range that
      holds it. */
  lemma {:induction false} LoopsWithFailures(s: State, root: u64, ranges: seq<Range>, p: nat)
    requires WellFormed(s, root) && p < PAGES
    requires forall i | 0 <= i < |ranges| :: ranges[i].count <= PAGES
    ensures var s' := Run(s, root, OpsOf(ranges));
            && WellFormed(s', root)
            && (|| Lookup(View(s'.pages, root), p) == Lookup(View(s.pages, root), p)
                || exists i :: 0 <= i < |ranges| && ranges[i].Holds(p)
                               && Lookup(View(s'.pages, root), p) == ranges[i].MappingAt(p))
    decreases |ranges|
  {
    hide View, WellFormed, Range.Ops, Lookup;
    if ranges != [] {
      var r, rest := ranges[0], ranges[1..];
      RunAppend(s, root, r.Ops(), OpsOf(rest));
      RangeOutcomeWithFailures(s, root, r, p);
      var s1 := Run(s, root, r.Ops());
      LoopsWithFailures(s1, root, rest, p);
      var m := Lookup(View(Run(s, root, OpsOf(ranges)).pages, root), p);
      if i :| 0 <= i < |rest| && rest[i].Holds(p) && m == rest[i].MappingAt(p) {
        assert ranges[i + 1] == rest[i];
      } else {
        assert ranges[0] == r;
      }
    }
  }

  lemma RangeOutcomeWithFailures(s: State, root: u64, r: Range, p: nat)
    requires WellFormed(s, root) && r.count <= PAGES && p < PAGES
    ensures var s' := Run(s, root, r.Ops());
            && WellFormed(s', root)
            && (|| Lookup(View(s'.pages, root), p) == Lookup(View(s.pages, root), p)
                || (r.Holds(p) && Lookup(View(s'.pages, root), p) == r.MappingAt(p)))
  {
    hide View, WellFormed, Run, RangeOps, MappingFor;
    RangeWithFailures(s, root, r.phys, r.virt, r.count, r.cached, p);
  }

  /** The address space at the entry of the kernel. When no call failed, every page of a region
      is mapped as its loop says, the first page of the window maps the page table that serves
      the window, and no other page is mapped. */
  lemma AddressSpace(s: State, root: u64, b: Parameters, p: nat)
    requires Fresh(s, root) && b.Fits() && p < PAGES
    requires AllSucceed(s, root, b.Ops())
    ensures var s' := Run(s, root, b.Ops());
            var m := Lookup(View(s'.pages, root), p);
            && WellFormed(s', root)
            && (forall i | 0 <= i < 5 && b.Regions()[i].Holds(p) :: m == b.Regions()[i].MappingAt(p))
            && (p == PageNumber(b.WindowStart()) ==>
                 m == Mapped(ServingTable(s'.pages, root, b.WindowStart()), 3, true))
            && (p != PageNumber(b.WindowStart()) && (forall i | 0 <= i < 5 :: !b.Regions()[i].Holds(p)) ==> m == Fault)
  {
    hide View, WellFormed, Run, AllSucceed, Range.Holds, Range.MappingAt, Fresh, MakeTempRegion, OpsOf;
    var w := b.WindowStart();
    var s0 := Run(s, root, OpsOf(b.Regions()));
    RunAppend(s, root, OpsOf(b.Regions()), [Window(w)]);
    OneStep(s0, root, Window(w));
    FreshRoot(s, root);
    RegionsDisjoint(b, p);
    RegionsDisjoint(b, PageNumber(w));
    LoopsOutcome(s, root, b.Regions(), p);
    MakeTempRegionRefines(s0, root, w);
  }

  /** For every layout that fits there is a firmware with which no call fails. */
  lemma BootCanSucceed(b: Parameters)
    requires b.Fits()
    ensures exists s :: Fresh(s, 0) && AllSucceed(s, 0, b.Ops())
  {
    hide AllSucceed, Fresh, Generous, Idle;
    var n := 3 * |b.Ops()|;
    OpsCount(b);
    IdleIsFresh(n);
    EnoughPagesSucceed(Idle(n), 0, b.Ops());
  }

  /** No call of the mapping phase fails if and only if the firmware grants the first k requests,
      where k counts the tables that serve some page of the layout; it takes exactly these. */
  lemma BootSucceeds(s: State, root: u64, b: Parameters)
    requires Fresh(s, root) && b.Fits()
    ensures var k := |OnPaths(b.Ops())|;
            && (AllSucceed(s, root, b.Ops()) <==>
                k <= |s.supply| && forall i | 0 <= i < k :: s.supply[i].Grant?)
            && (AllSucceed(s, root, b.Ops()) ==> Run(s, root, b.Ops()).supply == s.supply[k..])
    ensures forall n: Node :: n in OnPaths(b.Ops()) <==>
              1 <= n.depth <= 3
              && exists p :: 0 <= p < PAGES && InLayout(b, p) && n == Serving(p, n.depth)
  {
    hide AllSucceed, Run, Fresh, OnPaths, Parameters.Ops, InLayout, Serving;
    FreshRunSucceeds(s, root, b.Ops());
    PathsOfLayout(b);
  }

  /** A page of a region, or the first page of the window. */
  predicate InLayout(b: Parameters, p: nat)
    requires b.Fits() && p < PAGES
  {
    p == PageNumber(b.WindowStart()) || exists i :: 0 <= i < 5 && b.Regions()[i].Holds(p)
  }

  lemma PathsOfLayout(b: Parameters)
    requires b.Fits()
    ensures forall n: Node :: n in OnPaths(b.Ops()) <==>
              1 <= n.depth <= 3 && exists p :: 0 <= p < PAGES && InLayout(b, p) && n == Serving(p, n.depth)
  {
    hide OnPaths, Parameters.Ops, InLayout, Serving, PagesOf, PageNumber, Path;
    forall n: Node
      ensures n in OnPaths(b.Ops()) <==>
                1 <= n.depth <= 3 && exists p :: 0 <= p < PAGES && InLayout(b, p) && n == Serving(p, n.depth)
    {
      OnPathsServe(b.Ops(), n);
      forall p: nat
        ensures p in PagesOf(b.Ops()) <==> p < PAGES && InLayout(b, p)
        ensures n in Path(p) <==> 1 <= n.depth <= 3 && n == Serving(p, n.depth)
      {
        PagesOfLayout(b, p);
        OnPath(n, p);
      }
    }
  }

  lemma OnPath(n: Node, p: nat)
    ensures n in Path(p) <==> 1 <= n.depth <= 3 && n == Serving(p, n.depth)
  {
    hide Serving;
    LevelsDiffer(p);
  }

  lemma PagesOfLayout(b: Parameters, p: nat)
    requires b.Fits()
    ensures p in PagesOf(b.Ops()) <==> p < PAGES && InLayout(b, p)
  {
    hide PagesOf, PageNumber, Range.Holds, OpsOf, Parameters.Fits, Parameters.Regions;
    PagesOfAppend(OpsOf(b.Regions()), [Window(b.WindowStart())]);
    PagesOfOne(Window(b.WindowStart()));
    RegionsDisjoint(b, 0);
    assert |b.Regions()| == 5 by { LoopArguments(b); }
    PagesOfLoops(b.Regions(), p);
  }

  lemma {:induction false} PagesOfLoops(ranges: seq<Range>, p: nat)
    requires forall i | 0 <= i < |ranges| :: ranges[i].count <= PAGES
    ensures p in PagesOf(OpsOf(ranges)) <==> p < PAGES && exists i :: 0 <= i < |ranges| && ranges[i].Holds(p)
    decreases |ranges|
  {
    hide PageNumber, Range.Holds, RangeOps, Range.Ops, PagesOf;
    if ranges == [] {
      assert p !in PagesOf([]) by { PagesOfNothing(); }
    } else {
      var r, rest := ranges[0], ranges[1..];
      assert forall i | 0 <= i < |rest| :: rest[i] == ranges[i + 1];
      PagesOfLoops(rest, p);
      PagesOfAppend(r.Ops(), OpsOf(rest));
      PagesOfLoop(r, p);
      if i :| 0 < i < |ranges| && p < PAGES && ranges[i].Holds(p) {
        assert rest[i - 1].Holds(p);
      }
    }
  }

  lemma PagesOfNothing()
    ensures PagesOf([]) == {}
  {
  }

  lemma PagesOfLoop(r: Range, p: nat)
    requires r.count <= PAGES
    ensures p in PagesOf(r.Ops()) <==> p < PAGES && r.Holds(p)
  {
    hide PageNumber, RangeOps, Distance, PagesOf;
    if p < PAGES {
      PagesOfRange(r.phys, r.virt, r.count, r.cached, p);
    } else {
      PagesBelow(r.Ops(), p);
    }
  }

  lemma {:induction false} PagesBelow(ops: seq<Op>, p: nat)
    ensures p in PagesOf(ops) ==> p < PAGES
    decreases |ops|
  {
    hide PageNumber;
    if ops != [] {
      PagesBelow(ops[1..], p);
    }
  }

  lemma OpsCount(b: Parameters)
    requires b.Fits()
    ensures |b.Ops()| <= PAGES + 1
  {
    hide PageNumber, Rounds, Parameters.KernelBytes, Parameters.FramebufferAt, Parameters.WindowAt;
    var r := b.Regions();
    LayoutInOrder(b);
    CountOps(r);
    CountOps(r[1..]);
    CountOps(r[2..]);
    CountOps(r[3..]);
    CountOps(r[4..]);
    assert r[1..][1..] == r[2..] && r[2..][1..] == r[3..] && r[3..][1..] == r[4..] && r[4..][1..] == [];
  }

  lemma CountOps(ranges: seq<Range>)
    requires ranges != []
    ensures |OpsOf(ranges)| == ranges[0].count + |OpsOf(ranges[1..])|
  {
    RangeOpsCount(ranges[0].phys, ranges[0].virt, ranges[0].count, ranges[0].cached);
  }

  lemma {:induction false} RangeOpsCount(phys: u64, virt: u64, count: nat, cached: bool)
    ensures |RangeOps(phys, virt, count, cached)| == count
  {
    if count > 0 {
      RangeOpsCount(phys, virt, count - 1, cached);
    }
  }

  /** The loops do not look at the statuses of their calls. Whatever fails on the way, no page
      ends with a mapping that the layout does not give it. */
  lemma NoStrayMappings(s: State, root: u64, b: Parameters, p: nat)
    requires Fresh(s, root) && b.Fits() && p < PAGES
    ensures var s' := Run(s, root, b.Ops());
            var m := Lookup(View(s'.pages, root), p);
            && WellFormed(s', root)
            && (|| m == Fault
                || (exists i :: 0 <= i < 5 && b.Regions()[i].Holds(p) && m == b.Regions()[i].MappingAt(p))
                || (p == PageNumber(b.WindowStart())
                    && m == Mapped(ServingTable(s'.pages, root, b.WindowStart()), 3, true)))
  {
    hide View, WellFormed, Run, AllSucceed, Range.Holds, Range.MappingAt, Fresh, MakeTempRegion, OpsOf, ServingTable,
      PageNumber;
    var w := b.WindowStart();
    var s0 := Run(s, root, OpsOf(b.Regions()));
    RunAppend(s, root, OpsOf(b.Regions()), [Window(w)]);
    OneStep(s0, root, Window(w));
    FreshRoot(s, root);
    RegionsDisjoint(b, p);
    LoopsWithFailures(s, root, b.Regions(), p);
    MakeTempRegionRefines(s0, root, w);
  }

  /** Byte for byte: offset o of a region is found at the same offset of its physical range
      exactly when that starts at a page, as the image, which is mapped onto itself, must. For
      the kernel this is what the jump to the start of the higher half relies on. */
  lemma RegionTranslates(s: State, root: u64, b: Parameters, i: nat, r: Range, o: nat)
    requires Fresh(s, root) && b.Fits() && AllSucceed(s, root, b.Ops())
    requires i < 5 && r == b.Regions()[i] && (i == 0 ==> r.phys % 0x1000 == 0)
    requires o < r.count * 0x1000 && r.phys + o < 0x10_0000_0000_0000
    ensures var m := Walk(Run(s, root, b.Ops()).pages, root, Wrap(r.virt + o));
            m.Mapped? && (m.frame + Wrap(r.virt + o) % 0x1000 == r.phys + o <==> r.phys % 0x1000 == 0)
  {
    hide View, WellFormed, Run, AllSucceed, Fresh, Walk, MappingFor, PageNumber, Wrap, Distance, Parameters.Ops;
    RegionsAligned(b, i);
    var v := Wrap(r.virt + o);
    RegionsDisjoint(b, 0);
    OffsetInPage(r.virt, o);
    PageOfRound(r.virt, o / 0x1000);
    RoundOfPage(PageNumber(v), PageNumber(r.virt), o / 0x1000);
    AddressSpace(s, root, b, PageNumber(v));
    WalkIsTheMap(Run(s, root, b.Ops()).pages, root, v);
    FrameOfOffset(r.phys, o, r.cached);
  }

  lemma RegionMapping(s: State, root: u64, b: Parameters, i: nat, r: Range, o: nat, k: nat)
    requires Fresh(s, root) && b.Fits() && AllSucceed(s, root, b.Ops())
    requires i < 5 && r == b.Regions()[i] && r.phys % 0x1000 == 0
    requires k == o / 0x1000 && k < r.count
    ensures Walk(Run(s, root, b.Ops()).pages, root, Wrap(r.virt + o))
            == MappingFor(Wrap(r.phys + k * 0x1000), r.cached)
  {
    hide View, WellFormed, Run, AllSucceed, Fresh, Walk, MappingFor, PageNumber, Wrap, Distance, Parameters.Ops;
    RegionsAligned(b, i);
    var v := Wrap(r.virt + o);
    RegionsDisjoint(b, 0);
    OffsetInPage(r.virt, o);
    PageOfRound(r.virt, k);
    RoundOfPage(PageNumber(v), PageNumber(r.virt), k);
    AddressSpace(s, root, b, PageNumber(v));
    WalkIsTheMap(Run(s, root, b.Ops()).pages, root, v);
  }

  lemma MappingOfOffset(phys: u64, o: nat, cached: bool)
    requires phys % 0x1000 == 0 && phys + o < 0x10_0000_0000_0000
    ensures MappingFor(Wrap(phys + o / 0x1000 * 0x1000), cached)
            == Mapped(phys + o / 0x1000 * 0x1000, if cached then 19 else 3, true)
  {
    var x := phys + o / 0x1000 * 0x1000;
    assert x <= phys + o;
    assert Wrap(x) == x;
    assert x / 0x1000 % 0x100_0000_0000 == x / 0x1000;
    assert x / 0x1000 * 0x1000 == x - x % 0x1000 && x % 0x1000 == 0;
  }

  /** What a byte at `virt` translates to if it lies at offset o of a page-aligned physical range
      that ends below 2^52. */
  ghost predicate Reaches(pages: map<u64, Page>, root: u64, virt: nat, phys: u64, o: nat, flags: nat) {
    phys % 0x1000 == 0 && phys + o < 0x10_0000_0000_0000 ==>
      Walk(pages, root, virt) == Mapped(phys + o / 0x1000 * 0x1000, flags, true)
  }

  /** The address space in the numbers of `efi_main`: where each region starts, how far it is
      mapped, what it shows, and with which flags. */
  lemma LayoutInNumbers(s: State, root: u64, b: Parameters, o: nat)
    requires Fresh(s, root) && b.Fits() && AllSucceed(s, root, b.Ops())
    ensures var pages := Run(s, root, b.Ops()).pages;
            var kernel := 0xffff_8000_0000_0000;
            var frameMap := kernel + (b.fileSize + 0xfff) / 0x1000 * 0x1000 + 0x1_0000;
            var framebuffer := frameMap + (b.frameMapSize + 0xfff) / 0x1000 * 0x1_0000;
            && (o < b.imageSize ==> Reaches(pages, root, b.imageBase + o, b.imageBase, o, 3))
            && (o < frameMap - kernel ==> Reaches(pages, root, kernel + o, b.kernelPhys, o, 19))
            && (o < 0x5_0000 ==> Reaches(pages, root, 0xffff_ffff_fffa_f000 + o, b.stackPhys, o, 19))
            && (o < b.frameMapSize ==> Reaches(pages, root, frameMap + o, b.frameMapPhys, o, 19))
            && (o < b.framebufferSize ==> Reaches(pages, root, framebuffer + o, b.framebufferPhys, o, 3))
  {
    hide Run, AllSucceed, Fresh, Walk, Rounds, Parameters.Ops, Parameters.WindowAt;
    OffsetsBounded(b);
    RoundsCover(b.imageSize);
    RoundsCover(b.KernelBytes());
    RoundsCover(STACK_SIZE);
    RoundsCover(b.frameMapSize);
    RoundsCover(b.framebufferSize);
    RegionReaches(s, root, b, 0, o);
    RegionReaches(s, root, b, 1, o);
    RegionReaches(s, root, b, 2, o);
    RegionReaches(s, root, b, 3, o);
    RegionReaches(s, root, b, 4, o);
  }

  lemma RegionReaches(s: State, root: u64, b: Parameters, i: nat, o: nat)
    requires Fresh(s, root) && b.Fits() && AllSucceed(s, root, b.Ops()) && i < 5
    ensures var r := b.Regions()[i];
            o < r.count * 0x1000 && r.virt + o < TWO_64 ==>
              Reaches(Run(s, root, b.Ops()).pages, root, r.virt + o, r.phys, o, if r.cached then 19 else 3)
  {
    hide Run, AllSucceed, Fresh, Walk, Rounds, Wrap, MappingFor, Parameters.Ops, Parameters.WindowAt;
    var r := b.Regions()[i];
    if o < r.count * 0x1000 && r.virt + o < TWO_64 && r.phys % 0x1000 == 0 && r.phys + o < 0x10_0000_0000_0000 {
      RegionMapping(s, root, b, i, r, o, o / 0x1000);
      MappingOfOffset(r.phys, o, r.cached);
      WrapSmall(r.virt + o);
    }
  }

  lemma WrapSmall(x: nat)
    requires x < TWO_64
    ensures Wrap(x) == x
  {
  }

  /** And nothing else: which pages are mapped, in the numbers of `efi_main`. */
  lemma NothingElseMapped(s: State, root: u64, b: Parameters, p: nat)
    requires Fresh(s, root) && b.Fits() && AllSucceed(s, root, b.Ops()) && p < PAGES
    ensures var image, kernel := b.imageBase / 0x1000, 0x8_0000_0000;
            var frameMap := kernel + (b.fileSize + 0xfff) / 0x1000 + 16;
            var framebuffer := frameMap + (b.frameMapSize + 0xfff) / 0x1000 * 16;
            Lookup(View(Run(s, root, b.Ops()).pages, root), p) != Fault <==>
              || image <= p < image + (b.imageSize + 0xfff) / 0x1000
              || kernel <= p < frameMap
              || frameMap <= p < frameMap + (b.frameMapSize + 0xfff) / 0x1000
              || framebuffer <= p < framebuffer + (b.framebufferSize + 0xfff) / 0x1000
              || p == b.WindowStart() / 0x1000 - 0xf_fff0_0000_0000
              || 0xf_ffff_ffaf <= p < 0xf_ffff_ffff
  {
    hide View, Run, AllSucceed, Fresh, Lookup, PageNumber, ServingTable, Parameters.Ops, Range.Holds;
    AddressSpace(s, root, b, p);
    PagesInNumbers(b, p);
    var r := b.Regions();
    assert r[0] == b.Image() && r[1] == b.Kernel() && r[2] == b.Stack();
    assert r[3] == b.FrameMap() && r[4] == b.Framebuffer();
  }

  lemma PagesInNumbers(b: Parameters, p: nat)
    requires b.Fits() && p < PAGES
    ensures var image, kernel := b.imageBase / 0x1000, 0x8_0000_0000;
            var frameMap := kernel + (b.fileSize + 0xfff) / 0x1000 + 16;
            var framebuffer := frameMap + (b.frameMapSize + 0xfff) / 0x1000 * 16;
            && (b.Image().Holds(p) <==> image <= p < image + (b.imageSize + 0xfff) / 0x1000)
            && (b.Kernel().Holds(p) <==> kernel <= p < frameMap)
            && (b.Stack().Holds(p) <==> 0xf_ffff_ffaf <= p < 0xf_ffff_ffff)
            && (b.FrameMap().Holds(p) <==> frameMap <= p < frameMap + (b.frameMapSize + 0xfff) / 0x1000)
            && (b.Framebuffer().Holds(p) <==> framebuffer <= p < framebuffer + (b.framebufferSize + 0xfff) / 0x1000)
            && (p == PageNumber(b.WindowStart()) <==> p == b.WindowStart() / 0x1000 - 0xf_fff0_0000_0000)
  {
    hide Parameters.Fits, PageNumber, Range.Holds;
    PagesInRounds(b, p);
  }

  lemma PagesInRounds(b: Parameters, p: nat)
    requires b.Fits() && p < PAGES
    ensures var image, kernel := b.imageBase / 0x1000, 0x8_0000_0000;
            var frameMap := kernel + Rounds(b.fileSize) + 16;
            var framebuffer := frameMap + Rounds(b.frameMapSize) * 16;
            && (b.Image().Holds(p) <==> image <= p < image + Rounds(b.imageSize))
            && (b.Kernel().Holds(p) <==> kernel <= p < frameMap)
            && (b.Stack().Holds(p) <==> 0xf_ffff_ffaf <= p < 0xf_ffff_ffff)
            && (b.FrameMap().Holds(p) <==> frameMap <= p < frameMap + Rounds(b.frameMapSize))
            && (b.Framebuffer().Holds(p) <==> framebuffer <= p < framebuffer + Rounds(b.framebufferSize))
            && (p == PageNumber(b.WindowStart()) <==> p == b.WindowStart() / 0x1000 - 0xf_fff0_0000_0000)
  {
    hide Parameters.WindowAt, Parameters.KernelBytes, Parameters.FramebufferAt, PageNumber, Range.Holds, Rounds;
    LayoutInOrder(b);
    OffsetsInOrder(b);
    OffsetsInRounds(b);
    PageOfLowerHalf(b.imageBase);
    PageOfHigherHalf(0);
    PageOfHigherHalf(b.KernelBytes());
    PageOfHigherHalf(b.FramebufferAt());
    PageOfHigherHalf(b.WindowAt());
    PageOfHigherHalf(STACK_START - HIGHER_HALF_START);
    HoldsInOrder(b.Image(), p);
    HoldsInOrder(b.Kernel(), p);
    HoldsInOrder(b.FrameMap(), p);
    HoldsInOrder(b.Framebuffer(), p);
    HoldsInOrder(b.Stack(), p);
  }

  lemma OffsetsInRounds(b: Parameters)
    ensures b.KernelBytes() / 0x1000 == Rounds(b.fileSize) + 16
    ensures b.FramebufferAt() / 0x1000 == Rounds(b.fileSize) + 16 + 16 * Rounds(b.frameMapSize)
  {
    hide Rounds, Parameters.KernelBytes, Parameters.FramebufferAt;
    RoundsMean(b);
    PageMultiple(Rounds(b.fileSize) + 16);
    PageMultiple(Rounds(b.fileSize) + 16 + 16 * Rounds(b.frameMapSize));
  }

  /** The window stands at the first multiple of 2 MiB above the end of the framebuffer. */
  lemma WindowPlace(b: Parameters)
    requires b.Fits()
    ensures var end := 0xffff_8000_0000_0000 + (b.fileSize + 0xfff) / 0x1000 * 0x1000 + 0x1_0000
                       + (b.frameMapSize + 0xfff) / 0x1000 * 0x1_0000 + b.framebufferSize;
            && b.WindowStart() % 0x20_0000 == 0
            && b.WindowStart() - 0x20_0000 <= end < b.WindowStart()
  {
    LayoutInOrder(b);
  }

  /** Every region but the image, which lies where the firmware put it, starts at a page. */
  lemma RegionsAligned(b: Parameters, i: nat)
    requires b.Fits() && i < 5 && (i == 0 ==> b.imageBase % 0x1000 == 0)
    ensures b.Regions()[i].virt % 0x1000 == 0
  {
    hide Parameters.Fits, Rounds;
    RoundsMean(b);
    PageMultiple(Rounds(b.fileSize) + 0x10);
    PageMultiple(Rounds(b.fileSize) + 0x10 + 0x10 * Rounds(b.frameMapSize));
    HigherHalfAligned(b.KernelBytes());
    HigherHalfAligned(b.FramebufferAt());
  }

  lemma HigherHalfAligned(o: nat)
    requires o % 0x1000 == 0
    ensures (HIGHER_HALF_START + o) % 0x1000 == 0 && HIGHER_HALF_START % 0x1000 == 0 && STACK_START % 0x1000 == 0
  {
  }

  /** The window that the kernel is given is open: its address is aligned to 2 MiB, translates
      to the page table that serves it, and none of its other 511 slots is in use. */
  lemma WindowIsOpen(s: State, root: u64, b: Parameters)
    requires Fresh(s, root) && b.Fits() && AllSucceed(s, root, b.Ops())
    ensures var s' := Run(s, root, b.Ops());
            && WellFormed(s', root)
            && b.WindowStart() % 0x20_0000 == 0
            && SelfMapped(s'.pages, root, b.WindowStart())
            && Walk(s'.pages, root, b.WindowStart()).writable
            && forall i | 1 <= i < 512 :: Walk(s'.pages, root, b.WindowStart() + i * 0x1000) == Fault
  {
    hide View, WellFormed, Run, AllSucceed, Fresh, MakeTempRegion, Walk, ServingTable, OpsOf;
    var w := b.WindowStart();
    var s' := Run(s, root, b.Ops());
    LayoutInOrder(b);
    AddressSpace(s, root, b, PageNumber(w));
    WalkIsTheMap(s'.pages, root, w);
    assert WalkDepth(s'.pages, root, w) == 3 by { WindowDepth(s, root, b); }
    forall i | 1 <= i < 512
      ensures Walk(s'.pages, root, w + i * 0x1000) == Fault
    {
      SlotPage(w, i);
      RegionsDisjoint(b, PageNumber(w) + i);
      AddressSpace(s, root, b, PageNumber(w) + i);
      WalkIsTheMap(s'.pages, root, w + i * 0x1000);
    }
  }

  lemma SlotPage(w: u64, i: nat)
    requires w % 0x20_0000 == 0 && i < 512
    ensures PageNumber(w + i * 0x1000) == PageNumber(w) + i
  {
    assert (w + i * 0x1000) / 0x1000 == w / 0x1000 + i;
    assert w / 0x1000 == w / 0x20_0000 * 512;
  }

  lemma WindowDepth(s: State, root: u64, b: Parameters)
    requires Fresh(s, root) && b.Fits() && AllSucceed(s, root, b.Ops())
    ensures WalkDepth(Run(s, root, b.Ops()).pages, root, b.WindowStart()) == 3
  {
    hide View, WellFormed, Run, AllSucceed, Fresh, MakeTempRegion, WalkDepth, OpsOf;
    var w := b.WindowStart();
    var s0 := Run(s, root, OpsOf(b.Regions()));
    RunAppend(s, root, OpsOf(b.Regions()), [Window(w)]);
    OneStep(s0, root, Window(w));
    FreshRoot(s, root);
    RegionsDisjoint(b, 0);
    LoopsOutcome(s, root, b.Regions(), 0);
    MakeTempRegionRefines(s0, root, w);
  }

  /** The mapping loops of `efi_main`, in their order; the result is how much of the higher half
      is taken. The statuses of the calls are not looked at. */
  method MapRegions(machine: Machine, pml4: u64, b: Parameters) returns (currentPage: u64)
    requires WellFormed(machine.Now(), pml4) && b.Fits()
    modifies machine
    ensures machine.Now() == Run(old(machine.Now()), pml4, OpsOf(b.Regions()))
    ensures WellFormed(machine.Now(), pml4)
    ensures currentPage == b.FramebufferAt() + b.framebufferSize
  {
    hide Parameters.Fits, Parameters.Regions, WellFormed, Run, RangeOps, OpsOf, Rounds, Range.Ops, Parameters.WindowAt;
    ImageSizeBounded(b);
    LoopArguments(b);
    OffsetsBounded(b);
    FiveLoops(machine.Now(), pml4, b.Regions());
    machine.MapRange(b.imageBase, b.imageBase, b.imageSize, false, pml4);

    currentPage := 0;
    var kernelPagesCount: u64 := (b.fileSize + 0xfff) / 0x1000 * 0x1000 + 0x1_0000;
    machine.MapRange(b.kernelPhys, HIGHER_HALF_START, kernelPagesCount, true, pml4);
    currentPage := currentPage + kernelPagesCount;

    machine.MapRange(b.stackPhys, 0xffff_ffff_ffff_f000 - STACK_SIZE, STACK_SIZE, true, pml4);

    machine.MapRange(b.frameMapPhys, HIGHER_HALF_START + currentPage, b.frameMapSize, true, pml4);
    currentPage := currentPage + (b.frameMapSize + 0xfff) / 0x1000 * 0x1_0000;

    machine.MapRange(b.framebufferPhys, HIGHER_HALF_START + currentPage, b.framebufferSize, false, pml4);
    currentPage := currentPage + b.framebufferSize;
  }

  /** The mapping part of `efi_main`. */
  method MapAll(machine: Machine, pml4: u64, b: Parameters) returns (window: u64)
    requires WellFormed(machine.Now(), pml4) && b.Fits()
    modifies machine
    ensures machine.Now() == Run(old(machine.Now()), pml4, b.Ops())
    ensures WellFormed(machine.Now(), pml4)
    ensures window == b.WindowStart()
  {
    hide WellFormed, View, Run, MakeTempRegion, PageNumber, OpsOf, And, Parameters.Fits, Parameters.Regions,
      Parameters.FramebufferAt;
    OffsetsBounded(b);
    ghost var start := machine.Now();
    var currentPage := MapRegions(machine, pml4, b);
    RunAppend(start, pml4, OpsOf(b.Regions()), [Window(b.WindowStart())]);
    OneStep(machine.Now(), pml4, Window(b.WindowStart()));

    LargePageBits(currentPage);
    currentPage := And(currentPage, NOT_1FFFFF) + 0x20_0000;
    var status := machine.MakeTempRegion(HIGHER_HALF_START + currentPage, pml4);
    window := HIGHER_HALF_START + currentPage;
  }

  lemma OffsetsBounded(b: Parameters)
    requires b.Fits()
    ensures b.KernelBytes() <= b.FramebufferAt()
    ensures b.FramebufferAt() + b.framebufferSize <= b.WindowAt() < 0x8000_0000_0000
  {
  }

  lemma LoopArguments(b: Parameters)
    requires b.Fits()
    ensures |b.Regions()| == 5
    ensures b.Regions()[0].Ops() == RangeOps(b.imageBase, b.imageBase, Rounds(b.imageSize), false)
    ensures b.Regions()[1].Ops() == RangeOps(b.kernelPhys, HIGHER_HALF_START, Rounds(b.KernelBytes()), true)
    ensures b.Regions()[2].Ops() == RangeOps(b.stackPhys, STACK_START, Rounds(STACK_SIZE), true)
    ensures b.Regions()[3].Ops()
            == RangeOps(b.frameMapPhys, HIGHER_HALF_START + b.KernelBytes(), Rounds(b.frameMapSize), true)
    ensures b.Regions()[4].Ops()
            == RangeOps(b.framebufferPhys, HIGHER_HALF_START + b.FramebufferAt(), Rounds(b.framebufferSize), false)
  {
    hide Rounds, RangeOps;
  }

  lemma ImageSizeBounded(b: Parameters)
    requires b.Fits()
    ensures b.imageSize <= 0x8000_0000_0000
  {
  }

  lemma FiveLoops(s: State, root: u64, r: seq<Range>)
    requires |r| == 5
    ensures var s1 := Run(s, root, r[0].Ops());
            var s2 := Run(s1, root, r[1].Ops());
            var s3 := Run(s2, root, r[2].Ops());
            var s4 := Run(s3, root, r[3].Ops());
            Run(s, root, OpsOf(r)) == Run(s4, root, r[4].Ops())
  {
    hide Run, Range.Ops;
    var s1 := Run(s, root, r[0].Ops());
    var s2 := Run(s1, root, r[1].Ops());
    var s3 := Run(s2, root, r[2].Ops());
    var s4 := Run(s3, root, r[3].Ops());
    LoopsInOrder(s, root, r);
    LoopsInOrder(s1, root, r[1..]);
    LoopsInOrder(s2, root, r[2..]);
    LoopsInOrder(s3, root, r[3..]);
    LoopsInOrder(s4, root, r[4..]);
    assert r[1..][1..] == r[2..] && r[2..][1..] == r[3..] && r[3..][1..] == r[4..] && r[4..][1..] == [];
    RunNothing(Run(s4, root, r[4].Ops()), root);
  }

  lemma RunNothing(s: State, root: u64)
    ensures Run(s, root, []) == s
  {
  }

  lemma LoopsInOrder(s: State, root: u64, ranges: seq<Range>)
    requires ranges != []
    ensures Run(s, root, OpsOf(ranges)) == Run(Run(s, root, ranges[0].Ops()), root, OpsOf(ranges[1..]))
  {
    RunAppend(s, root, ranges[0].Ops(), OpsOf(ranges[1..]));
  }
}
