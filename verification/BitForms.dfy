/** The arithmetic fields of PagingSpec are the shifts and masks that the sources write. */
module BitForms {
  import opened Bits
  import opened PagingSpec

  lemma IndexForms(virt: nat)
    ensures EntryPML4(virt) == And(Shr(virt, 39), 0x1ff)
    ensures EntryPDPT(virt) == And(Shr(virt, 30), 0x1ff)
    ensures EntryPD(virt) == And(Shr(virt, 21), 0x1ff)
    ensures EntryPT(virt) == And(Shr(virt, 12), 0x1ff)
  {
    Powers();
    ShiftPowers();
    IndexBits(virt, 39);
    IndexBits(virt, 30);
    IndexBits(virt, 21);
    IndexBits(virt, 12);
  }

  /** `EFI_ERROR`: the sign bit. */
  lemma StatusForm(status: u64)
    ensures IsError(status) <==> And(status, 0x8000_0000_0000_0000) != 0
  {
    hide And, Shr;
    TopPower();
    AndShiftedMask(status, 1, 63);
    ShrIsDivision(status, 63);
    PresentBit(status / 0x8000_0000_0000_0000);
  }

  lemma EntryForms(e: u64)
    ensures Present(e) <==> And(e, PTE_PRESENT) != 0
    ensures Address(e) == And(e, PTE_ADDR_MASK)
    ensures LargePage(e) <==> And(e, PAGE_SIZE_BIT) != 0
    ensures MadePresent(e) == Or(e, 3)
  {
    PresentBit(e);
    AddressBits(e);
    PageSizeBit(e);
    OrThree(e);
  }

  lemma LeafEntryForm(phys: u64, cached: bool)
    ensures LeafEntry(phys, cached) == Or(Or(And(phys, NOT_FFF), 3), if cached then 16 else 0)
  {
    hide And, Or;
    PageBits(phys);
    var a := phys / 0x1000;
    assert a * 0x1000 / 4 == a * 0x400;
    OrThree(a * 0x1000);
    OrSixteen(a * 0x80);
    OrOfZero(a * 0x1000 + 3, 0);
  }
}
