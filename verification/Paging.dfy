/** Page-table entries as the kernel's macros build them, and the translation that the processor
    performs on them (4-level paging, section 4.5 of the Intel SDM, volume 3A). */
module Paging {
  import opened Options
  import opened Powers
  import opened Words

  const PAGE_FRAME: Word := 0xFFFF_FFFF_F000

  function SetPageFrame(page: Word, addr: Word, flags: Word): Word {
    AndFits(page, Not(PAGE_FRAME));
    AndFits(addr, PAGE_FRAME);
    OrFits(And(page, Not(PAGE_FRAME)), And(addr, PAGE_FRAME));
    OrFits(Or(And(page, Not(PAGE_FRAME)), And(addr, PAGE_FRAME)), flags);
    Or(Or(And(page, Not(PAGE_FRAME)), And(addr, PAGE_FRAME)), flags)
  }

  function SetPageFlags(page: Word, flags: Word): Word {
    OrFits(page, flags);
    Or(page, flags)
  }

  predicate Present(e: Word) {
    And(e, 1) != 0
  }

  /** Bit 7: the entry maps memory directly instead of pointing at a table. */
  predicate Direct(e: Word) {
    And(e, 0x80) != 0
  }

  /** Exactly the bits of the flags are added. */
  lemma SetPageFlagsBits(page: Word, flags: Word, n: nat)
    ensures BitN(SetPageFlags(page, flags), n) <==> BitN(page, n) || BitN(flags, n)
  {
    OrBit(page, flags, n);
  }

  /** Present and writable: the two lowest bits become 1 and the other 62 stay. */
  lemma PresentAndWritable(page: Word)
    ensures SetPageFlags(page, 3) == 4 * (page / 4) + 3
  {
    OrHalf(page, 3);
    OrHalf(page / 2, 1);
    assert Or(page / 2 / 2, 0) == page / 4;
  }

  // ----- fields -----

  function FlagBits(e: nat): nat {
    Low(e, 12)
  }

  function FrameBits(e: nat): nat {
    Low(Shr(e, 12), 36)
  }

  function HighBits(e: nat): nat {
    Shr(e, 48)
  }

  lemma FieldsAreArithmetic(e: nat)
    ensures FlagBits(e) == e % 4096
    ensures FrameBits(e) == e / 4096 % 0x10_0000_0000
    ensures HighBits(e) == e / 0x1_0000_0000_0000
  {
    WordPowers();
    Pow2Sum(12, 12);
    Pow2Sum(24, 12);
    ShiftIsDivision(e, 12);
    ShiftIsDivision(e / 4096, 36);
    ShiftIsDivision(e, 48);
  }

  lemma OrFields(a: nat, b: nat)
    ensures FlagBits(Or(a, b)) == Or(FlagBits(a), FlagBits(b))
    ensures FrameBits(Or(a, b)) == Or(FrameBits(a), FrameBits(b))
    ensures HighBits(Or(a, b)) == Or(HighBits(a), HighBits(b))
  {
    OrSplit(a, b, 12);
    OrSplit(Shr(a, 12), Shr(b, 12), 36);
    OrSplit(a, b, 48);
  }

  lemma AndFields(a: nat, b: nat)
    ensures FlagBits(And(a, b)) == And(FlagBits(a), FlagBits(b))
    ensures FrameBits(And(a, b)) == And(FrameBits(a), FrameBits(b))
    ensures HighBits(And(a, b)) == And(HighBits(a), HighBits(b))
  {
    AndSplit(a, b, 12);
    AndSplit(Shr(a, 12), Shr(b, 12), 36);
    AndSplit(a, b, 48);
  }

  lemma FieldsFit(e: Word)
    ensures FlagBits(e) < Pow2(12) && FrameBits(e) < Pow2(36) && HighBits(e) < Pow2(16)
    ensures e == 0x1_0000_0000_0000 * HighBits(e) + 4096 * FrameBits(e) + FlagBits(e)
  {
    hide FlagBits, FrameBits, HighBits;
    WordPowers();
    Pow2Sum(12, 12);
    Pow2Sum(24, 12);
    FieldsAreArithmetic(e);
  }

  lemma MaskConstants()
    ensures FlagBits(PAGE_FRAME) == 0 && FrameBits(PAGE_FRAME) == Ones(36) && HighBits(PAGE_FRAME) == 0
    ensures FlagBits(Not(PAGE_FRAME)) == Ones(12) && FrameBits(Not(PAGE_FRAME)) == 0
    ensures HighBits(Not(PAGE_FRAME)) == Ones(16)
  {
    hide FlagBits, FrameBits, HighBits;
    WordPowers();
    Pow2Sum(12, 12);
    Pow2Sum(24, 12);
    FieldsAreArithmetic(PAGE_FRAME);
    FieldsAreArithmetic(Not(PAGE_FRAME));
  }

  /** The mask selects the frame field, its complement the other two. */
  lemma MaskFields(e: Word)
    ensures And(e, PAGE_FRAME) == 4096 * FrameBits(e)
    ensures FrameBits(And(e, PAGE_FRAME)) == FrameBits(e)
    ensures FlagBits(And(e, PAGE_FRAME)) == 0 && HighBits(And(e, PAGE_FRAME)) == 0
    ensures FrameBits(And(e, Not(PAGE_FRAME))) == 0
    ensures FlagBits(And(e, Not(PAGE_FRAME))) == FlagBits(e) && HighBits(And(e, Not(PAGE_FRAME))) == HighBits(e)
  {
    hide FlagBits, FrameBits, HighBits;
    AndFields(e, PAGE_FRAME);
    AndFields(e, Not(PAGE_FRAME));
    MaskConstants();
    FieldsFit(e);
    AndZero(FlagBits(e));
    AndZero(FrameBits(e));
    AndZero(HighBits(e));
    AndOnes(FlagBits(e), 12);
    AndOnes(FrameBits(e), 36);
    AndOnes(HighBits(e), 16);
    AndFits(e, PAGE_FRAME);
    hide And;
    FieldsFit(And(e, PAGE_FRAME));
  }

  /** SetPageFrame field by field: the frame comes from the address (with whatever frame bits the
      flags carry), the flag bits of entry and flags add up, and neither disturbs the other. */
  lemma SetPageFrameFields(page: Word, addr: Word, flags: Word)
    ensures var e := SetPageFrame(page, addr, flags);
      && FlagBits(e) == Or(FlagBits(page), FlagBits(flags))
      && FrameBits(e) == Or(FrameBits(addr), FrameBits(flags))
      && HighBits(e) == Or(HighBits(page), HighBits(flags))
  {
    hide FlagBits, FrameBits, HighBits;
    MaskFields(page);
    MaskFields(addr);
    var kept, frame := And(page, Not(PAGE_FRAME)), And(addr, PAGE_FRAME);
    OrFields(kept, frame);
    OrFields(Or(kept, frame), flags);
    OrZero(FlagBits(page));
    OrZero(HighBits(page));
    OrZero(FrameBits(addr));
  }

  lemma OrZero(a: nat)
    ensures Or(a, 0) == a && Or(0, a) == a
  {
  }

  lemma LowFlags(flags: Word)
    requires flags < 4096
    ensures FlagBits(flags) == flags && FrameBits(flags) == 0 && HighBits(flags) == 0
  {
    hide FlagBits, FrameBits, HighBits;
    FieldsAreArithmetic(flags);
  }

  lemma AlignedAddress(addr: Word)
    ensures And(addr, PAGE_FRAME) == 4096 * (addr / 4096 % 0x10_0000_0000)
    ensures addr < 0x1_0000_0000_0000 && addr % 4096 == 0 ==> And(addr, PAGE_FRAME) == addr
  {
    hide FlagBits, FrameBits, HighBits, And;
    MaskFields(addr);
    FieldsAreArithmetic(addr);
  }

  /** With flags below 4096 the frame read back is the frame of the address, and the flag bits are
      those of the entry and the flags together. */
  lemma FrameReadsBack(page: Word, addr: Word, flags: Word)
    requires flags < 4096
    ensures And(SetPageFrame(page, addr, flags), PAGE_FRAME) == And(addr, PAGE_FRAME)
    ensures SetPageFrame(page, addr, flags) % 4096 == Or(page % 4096, flags)
  {
    hide FlagBits, FrameBits, HighBits, SetPageFrame, And, Or;
    var e := SetPageFrame(page, addr, flags);
    SetPageFrameFields(page, addr, flags);
    LowFlags(flags);
    OrZero(FrameBits(addr));
    FieldsAreArithmetic(page);
    FieldsAreArithmetic(e);
    MaskFields(e);
    MaskFields(addr);
  }

  /** Into an empty entry, the macro writes the sum of frame and flags. */
  lemma FreshEntry(addr: Word, flags: Word)
    requires flags < 4096
    ensures SetPageFrame(0, addr, flags) == And(addr, PAGE_FRAME) + flags
  {
    hide FlagBits, FrameBits, HighBits, SetPageFrame, And, Or;
    var e := SetPageFrame(0, addr, flags);
    SetPageFrameFields(0, addr, flags);
    LowFlags(0);
    LowFlags(flags);
    OrZero(FrameBits(addr));
    OrZero(flags);
    OrZero(0);
    MaskFields(addr);
    FieldsFit(e);
  }

  /** The flag tests look at the flag field only. */
  lemma TestsAreFlags(e: Word)
    ensures Present(e) <==> e % 2 == 1
    ensures Direct(e) <==> e % 256 >= 128
  {
    TestIsBit(e, 0);
    DirectBit(e, 7);
  }

  lemma DirectBit(e: Word, n: nat)
    requires n == 7
    ensures Pow2(n) == 0x80 && (And(e, Pow2(n)) != 0 <==> e % 256 >= 128)
  {
    hide And, Shr, Pow2;
    SeventhPower();
    TestIsBit(e, n);
    ShiftIsDivision(e, n);
    UpperHalfByte(e);
  }

  lemma SeventhPower()
    ensures Pow2(7) == 0x80
  {
  }

  lemma UpperHalfByte(e: nat)
    ensures e / 128 % 2 == 1 <==> e % 256 >= 128
  {
  }

  /** A page mapped with the present flag translates to its physical address plus the offset. */
  lemma MappedEntry(page: Word, phys: Word, flags: Word)
    requires flags < 4096 && flags % 2 == 1
    ensures var e := SetPageFrame(page, phys, flags);
      && Present(e) && And(e, PAGE_FRAME) == And(phys, PAGE_FRAME) && e % 4096 == Or(page % 4096, flags)
      && (phys < 0x1_0000_0000_0000 && phys % 4096 == 0 ==> And(e, PAGE_FRAME) == phys)
  {
    var e := SetPageFrame(page, phys, flags);
    OrHalf(page % 4096, flags);
    hide SetPageFrame, And, Or, Present;
    FrameReadsBack(page, phys, flags);
    AlignedAddress(phys);
    TestsAreFlags(e);
    LowestBit(e);
  }

  lemma LowestBit(e: nat)
    ensures e % 2 == e % 4096 % 2
  {
    DivMod(e, 4096);
    var r := e % 4096;
    Quotient(e, 2048 * (e / 4096) + r / 2, 2, r % 2);
  }

  /** entry & PAGE_FRAME + offset, as the source writes it, is entry & (PAGE_FRAME + offset): the
      offset is masked with the flag bits instead of being added. */
  lemma PrecedenceSlip(e: Word, off: nat)
    requires off < 4096
    ensures And(e, PAGE_FRAME + off) == And(e, PAGE_FRAME) + And(e % 4096, off)
    ensures And(e, PAGE_FRAME + off) == And(e, PAGE_FRAME) + off <==> And(e % 4096, off) == off
  {
    hide FlagBits, FrameBits, HighBits, And;
    var m: Word := PAGE_FRAME + off;
    MaskPlusOffset(off);
    AndFields(e, m);
    FieldsFit(e);
    AndOnes(FrameBits(e), 36);
    AndZero(HighBits(e));
    FieldsAreArithmetic(e);
    MaskFields(e);
    AndFits(e, m);
    FieldsFit(And(e, m));
  }

  lemma MaskPlusOffset(off: nat)
    requires off < 4096
    ensures FlagBits(PAGE_FRAME + off) == off && FrameBits(PAGE_FRAME + off) == Ones(36) && HighBits(PAGE_FRAME + off) == 0
  {
    hide FlagBits, FrameBits, HighBits;
    FieldsAreArithmetic(PAGE_FRAME + off);
    ThirtySixOnes();
  }

  lemma ThirtySixOnes()
    ensures Ones(36) == 0xF_FFFF_FFFF
  {
    WordPowers();
    hide Pow2;
    Pow2Sum(12, 12);
    Pow2Sum(24, 12);
  }

  // ----- addresses -----

  /** (addr >> 39) & 0x1FF and so on. */
  function Pml4Index(va: nat): nat {
    va / 0x80_0000_0000 % 512
  }

  function PdptIndex(va: nat): nat {
    va / 0x4000_0000 % 512
  }

  function PdirIndex(va: nat): nat {
    va / 0x20_0000 % 512
  }

  function PageIndex(va: nat): nat {
    va / 0x1000 % 512
  }

  lemma IndexMacros(va: nat)
    ensures Pml4Index(va) == And(Shr(va, 39), 0x1FF) && PdptIndex(va) == And(Shr(va, 30), 0x1FF)
    ensures PdirIndex(va) == And(Shr(va, 21), 0x1FF) && PageIndex(va) == And(Shr(va, 12), 0x1FF)
  {
    IndexPowers();
    IndexMacro(va, 39, 9);
    IndexMacro(va, 30, 9);
    IndexMacro(va, 21, 9);
    IndexMacro(va, 12, 9);
  }

  lemma IndexPowers()
    ensures Pow2(9) == 512 && Pow2(12) == 0x1000 && Pow2(21) == 0x20_0000 && Pow2(30) == 0x4000_0000
    ensures Pow2(39) == 0x80_0000_0000
  {
    assert Pow2(9) == 512;
    Pow2Sum(3, 9);
    Pow2Sum(9, 12);
    Pow2Sum(9, 21);
    Pow2Sum(9, 30);
  }

  lemma IndexMacro(va: nat, shift: nat, bits: nat)
    ensures And(Shr(va, shift), Ones(bits)) == va / Pow2(shift) % Pow2(bits)
  {
    AndLow(Shr(va, shift), bits);
    ShiftIsDivision(va, shift);
    ShiftIsDivision(Shr(va, shift), bits);
  }

  // ----- the walk -----

  /** Bits 51:12 of an entry. */
  function HardwareFrame(e: nat): nat {
    4096 * (e / 4096 % 0x100_0000_0000)
  }

  /** What the walk reads: tables of 512 entries at physical addresses. */
  type Memory = nat -> Option<seq<Word>>

  function Fetch(m: Memory, table: nat, index: nat): Word {
    match m(table)
    case Some(t) => if index < |t| then t[index] else 0
    case None => 0
  }

  /** Section 4.5: PML4, PDPT (1 GiB pages), page directory (2 MiB pages), page table. */
  function WalkAddress(m: Memory, cr3: nat, va: nat): Option<nat> {
    var e4 := Fetch(m, cr3, Pml4Index(va));
    if !Present(e4) then None else
    var e3 := Fetch(m, HardwareFrame(e4), PdptIndex(va));
    if !Present(e3) then None else
    if Direct(e3) then Some(HardwareFrame(e3) / 0x4000_0000 * 0x4000_0000 + va % 0x4000_0000) else
    var e2 := Fetch(m, HardwareFrame(e3), PdirIndex(va));
    if !Present(e2) then None else
    if Direct(e2) then Some(HardwareFrame(e2) / 0x20_0000 * 0x20_0000 + va % 0x20_0000) else
    var e1 := Fetch(m, HardwareFrame(e2), PageIndex(va));
    if !Present(e1) then None else Some(HardwareFrame(e1) + va % 0x1000)
  }
}
