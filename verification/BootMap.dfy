/** The address space that vmm_init builds, as a function of where its second loop stops, and the tables it takes. */
module BootMap {
  import opened Bits
  import opened Options
  import opened Pmm
  import opened PageTables
  import opened Entries

  const STACK_BASE: u64 := 0xFFFF_FC00_0000_0000
  const KERNEL_BASE: u64 := 0xFFFF_FFFF_8000_0000
  const MAPPED_SIZE: u64 := 0x1_0000_0000
  const STACK_PAGES: nat := 9

  /** The 2 MiB steps of the code's second loop, and those of the 2 GiB that lie above KERNEL_BASE. */
  const ALL_STEPS: nat := 0x800
  const KERNEL_STEPS: nat := 0x400

  /** Addresses from here to the upper half are no addresses to the processor. */
  const LOWER_HALF: u64 := 0x8000_0000_0000

  // ----- translation -----

  /** The view after m steps of the identity loop and then n steps of the kernel loop, both in 2 MiB pages. The
      kernel loop counts its pages from KERNEL_BASE on and goes round to address 0. */
  function BootView(v: u64, m: nat, n: nat): Walk
    requires m <= 0x800 && n <= 0x800
  {
    var h := HugePageOf(v);
    var j := (h + 0x400) % 0x800_0000;
    if j < n then Leaf(2, HugeEntry(j * HUGE_SIZE, PTE_READWRITE))
    else if h < m then Leaf(2, HugeEntry(h * HUGE_SIZE, PTE_READWRITE))
    else Unmapped
  }

  /** The physical address a walk gives. */
  function Translate(w: Walk, v: u64): Option<nat> {
    match w
    case Leaf(1, e) => Some(Target(e) + v % PAGE_SIZE)
    case Leaf(2, e) => Some(e / HUGE_SIZE % 0x8000_0000 * HUGE_SIZE + v % HUGE_SIZE)
    case _ => None
  }

  /** What the two loops of the code leave: the lower half of the identity map has been overwritten by the upper
      2 GiB of physical memory. */
  lemma BootTranslation(v: u64)
    ensures var a := v % 0x1_0000_0000_0000;
            Translate(BootView(v, 0x800, ALL_STEPS), v) ==
              if a < 0x8000_0000 then Some(a + 0x8000_0000)
              else if a < 0x1_0000_0000 then Some(a)
              else if a >= 0xFFFF_8000_0000 then Some(a - 0xFFFF_8000_0000)
              else None
  {
    hide Translate, BootView, HugePageOf;
    HugePageAddress(v);
    BootTranslationOf(v, ALL_STEPS);
  }

  /** The identity map of 4 GiB that the code asks for is there when the kernel loop stops after 2 GiB. */
  lemma StoppedBootTranslation(v: u64)
    ensures var a := v % 0x1_0000_0000_0000;
            Translate(BootView(v, 0x800, KERNEL_STEPS), v) ==
              if a < 0x1_0000_0000 then Some(a)
              else if a >= 0xFFFF_8000_0000 then Some(a - 0xFFFF_8000_0000)
              else None
  {
    hide Translate, BootView, HugePageOf;
    HugePageAddress(v);
    BootTranslationOf(v, KERNEL_STEPS);
  }

  lemma HugePageAddress(v: u64)
    ensures v % 0x1_0000_0000_0000 == HugePageOf(v) * HUGE_SIZE + v % HUGE_SIZE && HugePageOf(v) < 0x800_0000
  {
  }

  lemma BootTranslationOf(v: u64, n: nat)
    requires n <= 0x800
    ensures var h := HugePageOf(v);
            var j := (h + 0x400) % 0x800_0000;
            Translate(BootView(v, 0x800, n), v) ==
              if j < n then Some(j * HUGE_SIZE + v % HUGE_SIZE)
              else if h < 0x800 then Some(h * HUGE_SIZE + v % HUGE_SIZE)
              else None
  {
    hide HugeEntry, HugePageOf;
    HugePageAddress(v);
    var h := HugePageOf(v);
    var j := (h + 0x400) % 0x800_0000;
    if j < n {
      AlignedHugeEntry(j * HUGE_SIZE);
    } else if h < 0x800 {
      AlignedHugeEntry(h * HUGE_SIZE);
    }
  }

  /** The identity map holds up to 4 GiB exactly if the kernel loop stops after 2 GiB at the latest. */
  lemma IdentityExactlyIfStopped(n: nat)
    requires n <= 0x800
    ensures (forall v: u64 :: v < MAPPED_SIZE ==> Translate(BootView(v, 0x800, n), v) == Some(v)) <==> n <= KERNEL_STEPS
  {
    hide Translate, BootView, HugePageOf;
    if n <= KERNEL_STEPS {
      forall v: u64 | v < MAPPED_SIZE ensures Translate(BootView(v, 0x800, n), v) == Some(v) {
        HugePageAddress(v);
        BootTranslationOf(v, n);
      }
    } else {
      HugePageAddress(0);
      BootTranslationOf(0, n);
      assert Translate(BootView(0, 0x800, n), 0) == Some(0x8000_0000);
    }
  }

  /** The view with the first pages of the stack mapped. */
  function StackView(v: u64, stack: seq<u64>, n: nat): Walk
    requires |stack| <= STACK_PAGES && n <= 0x800
  {
    var k := PageOf(v) - PageOf(STACK_BASE);
    if 0 <= k < |stack| then Leaf(1, PageEntry(stack[k], PTE_READWRITE)) else BootView(v, 0x800, n)
  }

  /** One more stack page. */
  lemma StackStep(stack: seq<u64>, page: u64, v: u64, n: nat)
    requires |stack| < STACK_PAGES && n <= 0x800
    ensures var virt := STACK_BASE + |stack| * PAGE_SIZE;
            virt < WORD64 && virt % PAGE_SIZE == 0 && StackView(virt, stack, n) == Unmapped &&
            PathOf(virt)[..1] == [504] && PathOf(virt)[..2] == [504, 0] && PathOf(virt)[..3] == [504, 0, 0] &&
            StackView(v, stack + [page], n)
              == if PageOf(v) == PageOf(virt) then Leaf(1, PageEntry(page, PTE_READWRITE)) else StackView(v, stack, n)
  {
    hide PageEntry, HugeEntry, PathOf, PageOf, HugePageOf, BootView;
    StackIndices(|stack|);
    StackUnmapped(STACK_BASE + |stack| * PAGE_SIZE, n);
  }

  /** Where the pages of the stack are in the tree. */
  lemma StackIndices(k: nat)
    requires k < STACK_PAGES
    ensures var virt := STACK_BASE + k * PAGE_SIZE;
            virt < WORD64 && virt % PAGE_SIZE == 0 && PageOf(virt) == PageOf(STACK_BASE) + k &&
            HugePageOf(virt) == HugePageOf(STACK_BASE) &&
            PathOf(virt)[..1] == [504] && PathOf(virt)[..2] == [504, 0] && PathOf(virt)[..3] == [504, 0, 0]
  {
  }

  lemma StackUnmapped(v: u64, n: nat)
    requires HugePageOf(v) == HugePageOf(STACK_BASE) && n <= 0x800
    ensures BootView(v, 0x800, n) == Unmapped
  {
    hide HugeEntry;
  }

  function NextStackPage(i: nat): u64
    requires i < STACK_PAGES
  {
    STACK_BASE + i * PAGE_SIZE
  }

  lemma StackPath(stack: seq<u64>, page: u64, n: nat)
    requires |stack| < STACK_PAGES && n <= 0x800
    ensures var virt := NextStackPage(|stack|);
            virt % PAGE_SIZE == 0 && StackView(virt, stack, n) == Unmapped &&
            PathOf(virt)[..1] == [504] && PathOf(virt)[..2] == [504, 0] && PathOf(virt)[..3] == [504, 0, 0] &&
            forall v: u64 :: StackView(v, stack + [page], n)
              == if PageOf(v) == PageOf(virt) then Leaf(1, PageEntry(page, PTE_READWRITE)) else StackView(v, stack, n)
  {
    hide StackView, PathOf, PageOf;
    StackStep(stack, page, 0, n);
    forall v: u64 ensures StackView(v, stack + [page], n)
      == if PageOf(v) == PageOf(NextStackPage(|stack|)) then Leaf(1, PageEntry(page, PTE_READWRITE))
        else StackView(v, stack, n) {
      StackStep(stack, page, v, n);
    }
  }

  /** The stack lies page by page from its base on. */
  lemma StackTranslation(stack: seq<u64>, n: nat, i: nat, o: nat)
    requires i < |stack| <= STACK_PAGES && n <= 0x800 && o < 4096
    requires stack[i] % PAGE_SIZE == 0 && stack[i] < TOP_LIMIT
    ensures var v: u64 := 0xFFFF_FC00_0000_0000 + i * 4096 + o;
            Translate(StackView(v, stack, n), v) == Some(stack[i] + o)
  {
    hide PageEntry, BootView, PageOf, Target;
    StackAddress(i, o);
    AlignedEntry(stack[i]);
    TargetOf(stack[i], 3);
  }

  lemma StackAddress(i: nat, o: nat)
    requires i < STACK_PAGES && o < 4096
    ensures var v: u64 := 0xFFFF_FC00_0000_0000 + i * 4096 + o;
            PageOf(v) == PageOf(STACK_BASE) + i && v % PAGE_SIZE == o
  {
    var v: u64 := 0xFFFF_FC00_0000_0000 + i * 4096 + o;
    DivUnique(v, 0x1000, 0xF_FFFF_C000_0000 + i, o);
  }

  lemma NoStackYet(n: nat)
    requires n <= 0x800
    ensures forall v: u64 :: StackView(v, [], n) == BootView(v, 0x800, n)
  {
  }

  /** Where an address below TOP_LIMIT leads: with a kernel loop of more than 2 GiB the lowest ones are displaced. */
  lemma LowAddress(a: u64, stack: seq<u64>, n: nat)
    requires a < TOP_LIMIT && |stack| <= STACK_PAGES && n <= 0x800
    ensures Translate(StackView(a, stack, n), a) ==
              Some(if a / HUGE_SIZE + KERNEL_STEPS < n then a + 0x8000_0000 else a)
  {
    hide Translate, BootView, HugePageOf, PageEntry;
    HugePageAddress(a);
    BootTranslationOf(a, n);
    assert PageOf(a) < PageOf(STACK_BASE);
  }

  /** Page 0 of the boot address space as the code has it. */
  lemma BootPageZero(stack: seq<u64>) returns (e: u64)
    requires |stack| <= STACK_PAGES
    ensures StackView(0, stack, ALL_STEPS) == Leaf(2, e) && Target(e) == 0x8000_0000
  {
    hide HugeEntry, PageEntry;
    AlignedHugeEntry(0x8000_0000);
    e := 0x8000_0083;
    assert PageOf(0) == 0 && HugePageOf(0) == 0;
  }

  /** Where the pointers of the code lead in its boot address space. Table pointers are physical addresses, in the lower
      half of the address space: below 4 GiB they lead to 2 GiB or above, and above that nowhere. */
  lemma LowerHalf(a: u64, stack: seq<u64>)
    requires a < LOWER_HALF && |stack| <= STACK_PAGES
    ensures Translate(StackView(a, stack, ALL_STEPS), a) ==
              if a < 0x8000_0000 then Some(a + 0x8000_0000) else if a < MAPPED_SIZE then Some(a) else None
  {
    hide Translate, BootView, HugePageOf, PageEntry;
    BootTranslation(a);
    assert PageOf(a) < PageOf(STACK_BASE) by { LowPages(a); }
  }

  lemma LowPages(a: u64)
    requires a < LOWER_HALF
    ensures PageOf(a) < 0x8_0000_0000 < PageOf(STACK_BASE) == 0xF_C000_0000
  {
    assert a / 0x1000 < 0x8_0000_0000;
  }

  // ----- the steps of the loops -----

  /** Step m of the identity loop. */
  lemma IdentityStep(m: nat)
    requires m < 0x800
    ensures HugePageOf(m * HUGE_SIZE) == m && PathOf(m * HUGE_SIZE)[..1] == [0] &&
            PathOf(m * HUGE_SIZE)[..2] == [0, m / 512]
    ensures forall v: u64 :: BootView(v, m + 1, 0)
              == if HugePageOf(v) == m then Leaf(2, HugeEntry(m * HUGE_SIZE, PTE_READWRITE)) else BootView(v, m, 0)
  {
  }

  lemma BootViewEmpty()
    ensures forall v: u64 :: BootView(v, 0, 0) == Unmapped
  {
  }

  /** The virtual address of step n of the kernel loop; the sum is taken in 64 bits. */
  function KernelAddress(n: nat): (virt: u64)
  {
    Wrap64(n * HUGE_SIZE + KERNEL_BASE)
  }

  lemma KernelAddressIs(n: nat)
    requires n < 0x800
    ensures KernelAddress(n) == if n < 0x400 then KERNEL_BASE + n * HUGE_SIZE else (n - 0x400) * HUGE_SIZE
  {
  }

  lemma KernelPaths(n: nat)
    requires n < 0x800
    ensures var p := PathOf(KernelAddress(n));
            p[..1] == (if n < 0x400 then [511] else [0]) &&
            p[..2] == (if n < 0x400 then [511, 510 + n / 512] else [0, n / 512 - 2])
  {
    hide Wrap64, KernelAddress;
    KernelAddressIs(n);
    if n < 0x400 {
      UpperIndices(n, KernelAddress(n));
    } else {
      LowerIndices(n - 0x400, KernelAddress(n));
    }
  }

  lemma UpperIndices(m: nat, v: u64)
    requires m < 0x400 && v == KERNEL_BASE + m * HUGE_SIZE
    ensures v / 0x80_0000_0000 % 512 == 511 && v / 0x4000_0000 % 512 == 510 + m / 512
  {
    assert v / 0x80_0000_0000 == 0x1FF_FFFF;
    var q, r := m / 512, m % 512;
    assert v == (0x3_FFFF_FFFE + q) * 0x4000_0000 + r * HUGE_SIZE;
    DivUnique(v, 0x4000_0000, 0x3_FFFF_FFFE + q, r * HUGE_SIZE);
  }

  lemma LowerIndices(m: nat, v: u64)
    requires m < 0x400 && v == m * HUGE_SIZE
    ensures v / 0x80_0000_0000 % 512 == 0 && v / 0x4000_0000 % 512 == m / 512
  {
    var q, r := m / 512, m % 512;
    assert v == q * 0x4000_0000 + r * HUGE_SIZE;
    DivUnique(v, 0x4000_0000, q, r * HUGE_SIZE);
  }

  /** Step n of the kernel loop. */
  lemma KernelStep(n: nat)
    requires n < 0x800
    ensures KernelAddress(n) % HUGE_SIZE == 0
    ensures forall v: u64 :: BootView(v, 0x800, n + 1)
              == if HugePageOf(v) == HugePageOf(KernelAddress(n)) then Leaf(2, HugeEntry(n * HUGE_SIZE, PTE_READWRITE))
                 else BootView(v, 0x800, n)
  {
    hide HugeEntry, Wrap64, KernelAddress;
    KernelAddressIs(n);
    if n < 0x400 {
      assert HugePageOf(KernelAddress(n)) == 0x7FF_FC00 + n;
    } else {
      assert HugePageOf(KernelAddress(n)) == n - 0x400;
    }
  }

  // ----- the tables of the boot address space -----

  /** The tables after m steps of the identity loop: the root, and then one table of 1 GiB after the other. */
  function IdentityTables(m: nat): set<Path> {
    var root: Path, low: Path, a: Path, b: Path, c: Path, d: Path := [], [0], [0, 0], [0, 1], [0, 2], [0, 3];
    {root} + (if m > 0 then {low, a} else {}) + (if m > 512 then {b} else {}) + (if m > 1024 then {c} else {}) +
    (if m > 1536 then {d} else {})
  }

  /** The tables after n steps of the kernel loop. */
  function BootTables(n: nat): set<Path> {
    var high: Path, a: Path, b: Path := [511], [511, 510], [511, 511];
    IdentityTables(0x800) + (if n > 0 then {high, a} else {}) + (if n > 512 then {b} else {})
  }

  function BootTableCount(n: nat): nat { if n == 0 then 6 else if n <= 512 then 8 else 9 }

  const STACK_TABLES: set<Path> := {[504], [504, 0], [504, 0, 0]}

  /** The tables once the first k stack pages are mapped. */
  function StackTables(n: nat, k: nat): set<Path> {
    BootTables(n) + if k == 0 then {} else STACK_TABLES
  }

  lemma NoStackTables(n: nat)
    ensures StackTables(n, 0) == BootTables(n)
  {
  }

  lemma IdentityTablesCount()
    ensures IdentityTables(0) == {[]} && |IdentityTables(0x800)| == 6
  {
    hide IdentityTables;
    var low: Path, a: Path, b: Path, c: Path, d: Path := [0], [0, 0], [0, 1], [0, 2], [0, 3];
    var s: set<Path> := {[]};
    AddPath(s, low);
    AddPath(s + {low}, a);
    AddPath(s + {low} + {a}, b);
    AddPath(s + {low} + {a} + {b}, c);
    AddPath(s + {low} + {a} + {b} + {c}, d);
    assert |low| == 1 && |a| == 2 && a[1] == 0 && b[1] == 1 && c[1] == 2 && d[1] == 3;
    AllIdentityTables();
    assert IdentityTables(0x800) == s + {low} + {a} + {b} + {c} + {d};
  }

  lemma AllIdentityTables()
    ensures IdentityTables(0) == {[]} && IdentityTables(0x800) == {[], [0], [0, 0], [0, 1], [0, 2], [0, 3]}
  {
  }

  lemma BootTablesCount(n: nat)
    ensures |BootTables(n)| == BootTableCount(n) && BootTables(0) == IdentityTables(0x800)
  {
    hide IdentityTables;
    IdentityTablesCount();
    LowTables(0x800);
    var s := IdentityTables(0x800);
    var high: Path, a: Path, b: Path := [511], [511, 510], [511, 511];
    assert |high| == 1 && |a| == 2 && a[1] == 510 && b[1] == 511;
    assert high !in s && a !in s && b !in s by { assert high[0] == 511 && a[0] == 511 && b[0] == 511; }
    ThreeMore(s, high, a, b);
    assert s + {} == s && s + {high, a} + {} == s + {high, a};
  }

  lemma ThreeMore(s: set<Path>, p: Path, q: Path, r: Path)
    requires p !in s && q !in s && r !in s && p != q && q != r && p != r
    ensures |s + {p, q}| == |s| + 2 && |s + {p, q} + {r}| == |s| + 3
  {
    AddPath(s, p);
    AddPath(s + {p}, q);
    assert s + {p} + {q} == s + {p, q};
    AddPath(s + {p, q}, r);
  }

  lemma LowTables(m: nat)
    ensures forall p :: p in IdentityTables(m) ==> |p| <= 2 && (p != [] ==> p[0] == 0)
  {
  }

  lemma FirstIndices(n: nat, k: nat)
    ensures forall p :: p in BootTables(n) && p != [] ==> p[0] == 0 || p[0] == 511
    ensures forall p :: p in StackTables(n, k) && p != [] ==> p[0] == 0 || p[0] == 504 || p[0] == 511
  {
    hide IdentityTables;
    LowTables(0x800);
  }

  lemma TablesGrow(m: nat, m': nat)
    requires m <= m'
    ensures IdentityTables(m) <= IdentityTables(m') && BootTables(m) <= BootTables(m')
  {
  }

  /** Step m of the identity loop adds the tables on its path. */
  lemma IdentityTablesStep(m: nat)
    requires m < 0x800
    ensures var p := PathOf(m * HUGE_SIZE);
            IdentityTables(m) + Prefixes(p, 2) == IdentityTables(m + 1) == IdentityTables(m + 1) - {p[..3]}
  {
    hide PathOf;
    IdentityStep(m);
    LowTables(m + 1);
    assert |PathOf(m * HUGE_SIZE)[..3]| == 3;
  }

  lemma KernelTablesStep(n: nat)
    requires n < 0x800
    ensures var p := PathOf(KernelAddress(n));
            BootTables(n) + Prefixes(p, 2) == BootTables(n + 1) == BootTables(n + 1) - {p[..3]}
  {
    hide PathOf, KernelAddress;
    KernelPaths(n);
    LowTables(0x800);
    assert |PathOf(KernelAddress(n))[..3]| == 3;
  }

  /** One step of the kernel loop, by the offset i that the code counts. */
  lemma KernelStepAt(i: u64)
    requires i % HUGE_SIZE == 0 && i < MAPPED_SIZE
    ensures var virt, n := Wrap64(i + KERNEL_BASE), i / HUGE_SIZE;
            virt % HUGE_SIZE == 0 &&
            BootTables(n) + Prefixes(PathOf(virt), 2) == BootTables(n + 1) == BootTables(n + 1) - {PathOf(virt)[..3]}
    ensures forall v: u64 :: BootView(v, 0x800, i / HUGE_SIZE + 1)
              == if HugePageOf(v) == HugePageOf(Wrap64(i + KERNEL_BASE)) then Leaf(2, HugeEntry(i, PTE_READWRITE))
                 else BootView(v, 0x800, i / HUGE_SIZE)
  {
    hide BootView, HugePageOf, PathOf, BootTables, Prefixes, HugeEntry, KernelAddress, Wrap64;
    var n := i / HUGE_SIZE;
    assert i == n * HUGE_SIZE;
    KernelAddressAt(i);
    KernelStep(n);
    KernelTablesStep(n);
  }

  lemma KernelAddressAt(i: u64)
    requires i % HUGE_SIZE == 0
    ensures KernelAddress(i / HUGE_SIZE) == Wrap64(i + KERNEL_BASE)
  {
    assert i == i / HUGE_SIZE * HUGE_SIZE;
  }

  lemma StackTablesStep(n: nat, k: nat, path: Path)
    requires |path| == 4 && path[..1] == [504] && path[..2] == [504, 0] && path[..3] == [504, 0, 0]
    ensures Missing(StackTables(n, k), path, 3) == if k == 0 then 3 else 0
    ensures StackTables(n, k) + Prefixes(path, 3) == StackTables(n, k + 1)
  {
    hide BootTables;
    FirstIndices(n, 0);
    assert Prefixes(path, 3) == STACK_TABLES;
    assert path[..1][0] == 504 && path[..2][0] == 504 && path[..3][0] == 504;
    assert path[..1] in STACK_TABLES && path[..2] in STACK_TABLES && path[..3] in STACK_TABLES;
  }
}
