/** What the page-table builder of the boot stub does to physical memory, as functions, and
    the translation that the processor reads back (Intel SDM Volume 3A, section 4.5). */
module PagingSpec {
  import opened Bits

  /** One 4 KiB frame seen as a table of 512 entries. */
  type Page = s: seq<u64> | |s| == 512 witness Zeros(512)

  function Zeros(n: nat): (z: seq<u64>)
    ensures |z| == n && forall i :: 0 <= i < n ==> z[i] == 0
  {
    seq(n, _ => 0)
  }

  const EFI_SUCCESS: u64 := 0
  const EFI_OUT_OF_RESOURCES: u64 := 0x8000_0000_0000_0009

  /** `EFI_ERROR`: the sign bit of the status. */
  predicate IsError(status: u64) {
    status >= 0x8000_0000_0000_0000
  }

  /** One answer of the firmware to a request for a single page: a refusal, or the base of a
      page together with whatever that page happens to contain. */
  datatype Reply = Refuse(status: u64) | Grant(base: u64, junk: Page)

  /** The frames in use, by base address, and the answers still to come. */
  datatype State = State(pages: map<u64, Page>, supply: seq<Reply>)

  datatype Outcome = Outcome(status: u64, table: u64, state: State)

  // ----- Memory -----

  function Load(pages: map<u64, Page>, table: u64, entry: nat): u64 {
    if table in pages && entry < 512 then pages[table][entry] else 0
  }

  function Store(pages: map<u64, Page>, table: u64, entry: nat, word: u64): map<u64, Page> {
    if table in pages && entry < 512 then pages[table := pages[table][entry := word]] else pages
  }

  // ----- Addresses -----

  // The indices and fields below are written as arithmetic; `BitForms` shows that they are the
  // shifts and masks of the sources.

  function EntryPML4(virt: nat): nat {
    virt / 0x80_0000_0000 % 512
  }

  function EntryPDPT(virt: nat): nat {
    virt / 0x4000_0000 % 512
  }

  function EntryPD(virt: nat): nat {
    virt / 0x20_0000 % 512
  }

  function EntryPT(virt: nat): nat {
    virt / 0x1000 % 512
  }

  /** Bits 12 to 47 of an address: the page that the four indices select. */
  function PageNumber(virt: nat): (p: nat)
    ensures p < 0x10_0000_0000
  {
    virt / 0x1000 % 0x10_0000_0000
  }

  // ----- The page walk of the processor -----

  /** What a virtual address translates to: nothing, or a frame with the bits of the entry
      outside the address field, and whether every level allows writing. */
  datatype Mapping = Fault | Mapped(frame: u64, flags: nat, writable: bool)

  predicate Present(e: nat) {
    e % 2 == 1
  }

  function Address(e: u64): u64 {
    e / 0x1000 % 0x100_0000_0000 * 0x1000
  }

  predicate Writable(e: nat) {
    e / 2 % 2 == 1
  }

  predicate LargePage(e: nat) {
    e / 0x80 % 2 == 1
  }

  /** An entry after `|= 3`. */
  function MadePresent(e: u64): u64 {
    e / 4 * 4 + 3
  }

  /** The entry for the frame of `phys`; `cached` sets bit 4. */
  function LeafEntry(phys: u64, cached: bool): u64 {
    phys / 0x1000 * 0x1000 + 3 + if cached then 16 else 0
  }

  /** The bits of an entry that are not part of its address field. */
  function NotAddress(e: nat): nat {
    e / 0x10_0000_0000_0000 * 0x10_0000_0000_0000 + e % 0x1000
  }

  function Walk(pages: map<u64, Page>, root: u64, virt: nat): Mapping {
    var e4 := Load(pages, root, EntryPML4(virt));
    if !Present(e4) then Fault else
    var e3 := Load(pages, Address(e4), EntryPDPT(virt));
    if !Present(e3) then Fault else
    if LargePage(e3) then
      Mapped(Address(e3) / 0x4000_0000 * 0x4000_0000 + virt % 0x4000_0000 / 0x1000 * 0x1000,
             NotAddress(e3), Writable(e4) && Writable(e3)) else
    var e2 := Load(pages, Address(e3), EntryPD(virt));
    if !Present(e2) then Fault else
    if LargePage(e2) then
      Mapped(Address(e2) / 0x20_0000 * 0x20_0000 + virt % 0x20_0000 / 0x1000 * 0x1000,
             NotAddress(e2), Writable(e4) && Writable(e3) && Writable(e2)) else
    var e1 := Load(pages, Address(e2), EntryPT(virt));
    if !Present(e1) then Fault else
    Mapped(Address(e1), NotAddress(e1), Writable(e4) && Writable(e3) && Writable(e2) && Writable(e1))
  }

  // ----- The operations -----

  function AllocatePages(s: State): Outcome {
    if s.supply == [] then Outcome(EFI_OUT_OF_RESOURCES, 0, s)
    else match s.supply[0]
      case Refuse(status) => Outcome(status, 0, s.(supply := s.supply[1..]))
      case Grant(base, junk) => Outcome(EFI_SUCCESS, base, State(s.pages[base := junk], s.supply[1..]))
  }

  function GetTable(s: State, table: u64, entry: nat): Outcome {
    var e := Load(s.pages, table, entry);
    if Present(e) then Outcome(EFI_SUCCESS, Address(e), s)
    else
      var a := AllocatePages(s);
      if a.status != EFI_SUCCESS then a
      else
        var zeroed := a.state.pages[a.table := Zeros(512)];
        a.(state := a.state.(pages := Store(zeroed, table, entry, a.table)))
  }

  /** `GetTable`, and on success the caller's `|= 3` on the entry. */
  function Descend(s: State, table: u64, entry: nat): Outcome {
    var g := GetTable(s, table, entry);
    if IsError(g.status) then g
    else
      var e := Load(g.state.pages, table, entry);
      g.(state := g.state.(pages := Store(g.state.pages, table, entry, MadePresent(e))))
  }

  /** The page table that serves `virt`, found or made level by level. */
  function PageTableOf(s: State, root: u64, virt: u64): Outcome {
    var g3 := Descend(s, root, EntryPML4(virt));
    if IsError(g3.status) then g3 else
    var g2 := Descend(g3.state, g3.table, EntryPDPT(virt));
    if IsError(g2.status) then g2 else
    Descend(g2.state, g2.table, EntryPD(virt))
  }

  /** The state after an operation that enters `word(pt)` for `virt` in its page table pt. */
  function Enter(s: State, root: u64, virt: u64, word: u64 -> u64): Outcome {
    var g := PageTableOf(s, root, virt);
    if IsError(g.status) then g
    else Outcome(EFI_SUCCESS, g.table,
                 g.state.(pages := Store(g.state.pages, g.table, EntryPT(virt), word(g.table))))
  }

  function MMap(s: State, root: u64, phys: u64, virt: u64, cached: bool): Outcome {
    Enter(s, root, virt, _ => LeafEntry(phys, cached))
  }

  function MakeTempRegion(s: State, root: u64, virt: u64): Outcome {
    Enter(s, root, virt, pt => LeafEntry(pt, false))
  }

  // ----- Runs -----

  datatype Op = Map(phys: u64, virt: u64, cached: bool) | Window(virt: u64)

  function Step(s: State, root: u64, op: Op): Outcome {
    match op
    case Map(phys, virt, cached) => MMap(s, root, phys, virt, cached)
    case Window(virt) => MakeTempRegion(s, root, virt)
  }

  /** The state after a run. Like `efi_main`, a run goes on after an operation that failed. */
  function Run(s: State, root: u64, ops: seq<Op>): State
    decreases |ops|
  {
    if ops == [] then s else Run(Step(s, root, ops[0]).state, root, ops[1..])
  }
}
