/** How the masks of the C code read and build page-table entries. */
module Entries {
  import opened Bits
  import opened Pmm
  import opened PageTables

  const PTE_PRESENT: u64 := 1
  const PTE_READWRITE: u64 := 2
  const PTE_PAGESIZE: u64 := 0x80
  const ADDRESS_MASK: u64 := 0x000F_FFFF_FFFF_F000
  const HUGE_MASK: u64 := 0x000F_FFFF_FFE0_0000

  lemma OrHalf(a: nat, b: nat)
    ensures Or(a, b) / 2 == Or(a / 2, b / 2)
    ensures Or(a, b) % 2 == if a % 2 == 1 || b % 2 == 1 then 1 else 0
  {
  }

  lemma {:induction false} OrAssoc(a: nat, b: nat, c: nat)
    ensures Or(Or(a, b), c) == Or(a, Or(b, c))
  {
    if a != 0 && b != 0 && c != 0 {
      OrAssoc(a / 2, b / 2, c / 2);
      OrHalf(a, b);
      OrHalf(b, c);
      OrHalf(Or(a, b), c);
      OrHalf(a, Or(b, c));
    }
  }

  lemma OrWord(a: u64, b: u64)
    ensures Or(a, b) < WORD64
  {
    WidePowers();
    OrBound(a, b, 64);
  }

  /** The three tests of an entry. */
  lemma Masks(e: u64)
    ensures And(e, PTE_PRESENT) != 0 <==> Present(e)
    ensures And(e, PTE_PAGESIZE) != 0 <==> Huge(e)
    ensures And(e, ADDRESS_MASK) == Target(e)
  {
    AndPow(e, 0);
    AndPow(e, 7);
    Powers();
    BitSeven(e);
    WidePowers();
    MaskedField(e, 40, 12, 0x100_0000_0000, 0x1000);
  }

  lemma BitSeven(e: nat)
    ensures Bit(e, 7) <==> e / 0x80 % 2 == 1
  {
    BitShr(e, 7);
    Powers();
    ShiftsDivideBy(e, 7, 0x80);
  }

  /** A mask of w ones from bit k keeps a field in place. */
  lemma MaskedField(e: nat, w: nat, k: nat, ones: nat, unit: nat)
    requires Pow2(w) == ones && Pow2(k) == unit
    ensures And(e, (ones - 1) * unit) == e / unit % ones * unit
  {
    AndShifted(e, ones - 1, k);
    ShiftsDivideBy(ones - 1, k, unit);
    ShiftsDivideBy(e, k, unit);
    AndOnes(e / unit, w);
    ShiftsDivideBy(e / unit, w, ones);
    ShiftsDivideBy(e / unit % ones, k, unit);
  }

  lemma MaskedHuge(phys: u64)
    ensures And(phys, HUGE_MASK) == phys / 0x20_0000 % 0x8000_0000 * 0x20_0000
  {
    WidePowers();
    Powers();
    MaskedField(phys, 31, 21, 0x8000_0000, 0x20_0000);
  }

  /** phys | PTE_PRESENT | PTE_READWRITE for a table page. */
  function TableEntry(phys: u64): (e: u64)
  {
    OrWord(phys, PTE_PRESENT);
    OrWord(Or(phys, PTE_PRESENT), PTE_READWRITE);
    Or(Or(phys, PTE_PRESENT), PTE_READWRITE)
  }

  /** phys | flags | PTE_PRESENT */
  function PageEntry(phys: u64, flags: u64): (e: u64)
  {
    OrWord(phys, flags);
    OrWord(Or(phys, flags), PTE_PRESENT);
    Or(Or(phys, flags), PTE_PRESENT)
  }

  /** (phys & HUGE_MASK) | flags | PTE_PRESENT | PTE_PAGESIZE */
  function HugeEntry(phys: u64, flags: u64): (e: u64)
  {
    AndBound(phys, HUGE_MASK);
    var p := PageEntry(And(phys, HUGE_MASK), flags);
    OrWord(p, PTE_PAGESIZE);
    Or(p, PTE_PAGESIZE)
  }

  /** The bits of the entries: those of the address and of the flags, and the ones that the code sets. */
  lemma PageEntryBits(phys: u64, flags: u64, k: nat)
    ensures Bit(PageEntry(phys, flags), k) <==> Bit(phys, k) || Bit(flags, k) || k == 0
  {
    OrWord(phys, flags);
    OrBit(phys, flags, k);
    OrBit(Or(phys, flags), PTE_PRESENT, k);
    OneBit(0, 1, k);
  }

  lemma TableEntryBits(phys: u64, k: nat)
    ensures Bit(TableEntry(phys), k) <==> Bit(phys, k) || k == 0 || k == 1
  {
    OrWord(phys, PTE_PRESENT);
    OrBit(phys, PTE_PRESENT, k);
    OrBit(Or(phys, PTE_PRESENT), PTE_READWRITE, k);
    OneBit(0, 1, k);
    OneBit(1, 2, k);
  }

  lemma HugeEntryBits(phys: u64, flags: u64, k: nat)
    ensures Bit(HugeEntry(phys, flags), k) <==>
              Bit(phys / 0x20_0000 % 0x8000_0000 * 0x20_0000, k) || Bit(flags, k) || k == 0 || k == 7
  {
    hide Or, And;
    MaskedHuge(phys);
    AndBound(phys, HUGE_MASK);
    var p := PageEntry(And(phys, HUGE_MASK), flags);
    PageEntryBits(And(phys, HUGE_MASK), flags, k);
    OrBit(p, PTE_PAGESIZE, k);
    OneBit(7, 0x80, k);
  }

  lemma OneBit(j: nat, n: nat, k: nat)
    requires (j == 0 && n == 1) || (j == 1 && n == 2) || (j == 7 && n == 0x80)
    ensures Bit(n, k) <==> k == j
  {
    Powers();
    PowBit(j, k);
  }

  lemma PageEntryPresent(phys: u64, flags: u64)
    ensures Present(PageEntry(phys, flags))
  {
    OrWord(phys, flags);
    OrBit(Or(phys, flags), PTE_PRESENT, 0);
  }

  lemma HugeEntryIsHuge(phys: u64, flags: u64)
    ensures Present(HugeEntry(phys, flags)) && Huge(HugeEntry(phys, flags))
  {
    AndBound(phys, HUGE_MASK);
    var p := PageEntry(And(phys, HUGE_MASK), flags);
    PageEntryPresent(And(phys, HUGE_MASK), flags);
    OrBit(p, PTE_PAGESIZE, 0);
    OrBit(p, PTE_PAGESIZE, 7);
    Powers();
    PowBit(7, 7);
    BitSeven(HugeEntry(phys, flags));
  }

  /** On a page-aligned address both orders of the low bits add 3. */
  lemma AlignedEntry(phys: u64)
    requires phys % PAGE_SIZE == 0
    ensures TableEntry(phys) == PageEntry(phys, PTE_READWRITE) == phys + 3
  {
    OrAssoc(phys, PTE_PRESENT, PTE_READWRITE);
    OrAssoc(phys, PTE_READWRITE, PTE_PRESENT);
    assert Or(1, 2) == 3 == Or(2, 1);
    Powers();
    ShiftsDivideBy(phys / PAGE_SIZE, 12, PAGE_SIZE);
    OrDisjoint(phys / PAGE_SIZE, 3, 12);
  }

  lemma TableEntryPoints(phys: u64)
    requires phys % PAGE_SIZE == 0 && 0 < phys < TOP_LIMIT
    ensures Points(TableEntry(phys), phys)
  {
    hide TableEntry;
    AlignedEntry(phys);
    TargetOf(phys, 3);
  }

  /** Low bits do not disturb the address of an aligned page. */
  lemma TargetOf(phys: u64, low: nat)
    requires phys % PAGE_SIZE == 0 && phys < TOP_LIMIT && low < 8
    ensures phys + low < WORD64 && Target(phys + low) == phys && !Huge(phys + low) &&
            (Present(phys + low) <==> low % 2 == 1)
  {
    var a := phys / 0x1000;
    assert phys == 0x1000 * a && a < 0x4_0000;
    assert (0x1000 * a + low) / 0x1000 == a;
    assert (0x1000 * a + low) / 0x80 == 0x20 * a;
  }

  /** A 2 MiB entry written for an aligned address below 2^52. */
  lemma AlignedHugeEntry(phys: u64)
    requires phys % HUGE_SIZE == 0 && phys < 0x10_0000_0000_0000
    ensures HugeEntry(phys, PTE_READWRITE) == phys + 0x83
  {
    hide Or, And, Pow2, Shl, PageEntry;
    MaskedHuge(phys);
    assert And(phys, HUGE_MASK) == phys;
    AlignedEntry(phys);
    AlignedOr(phys, 3);
    AlignedOr(phys, 0x83);
    OrAssoc(phys, 3, 0x80);
    LowBits();
  }

  lemma LowBits()
    ensures Or(3, 0x80) == 0x83
  {
  }

  lemma AlignedOr(phys: nat, low: nat)
    requires phys % HUGE_SIZE == 0 && low < HUGE_SIZE
    ensures Or(phys, low) == phys + low
  {
    Powers();
    ShiftsDivideBy(phys / HUGE_SIZE, 21, HUGE_SIZE);
    OrDisjoint(phys / HUGE_SIZE, low, 21);
  }
}
