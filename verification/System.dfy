/** From the boot loader's information to the heap: the memory map that the walk reads is the one the page allocator
    starts from, its pages carry the page tables, and what is left carries the heap. */
module System {
  import opened Bits
  import opened Pmm
  import opened Options
  import opened PageTables
  import opened BootMap
  import Boot
  import HeapRuns
  import Vma
  import Vmm

  /** The page meets an available entry of a firmware memory map that starts above low memory. */
  ghost predicate FirmwareFree(tags: seq<Boot.Tag>, i: nat) {
    exists t, e :: t in tags && FromEntry(t, e, i)
  }

  ghost predicate FromEntry(t: Boot.Tag, e: Boot.MapEntry, i: nat) {
    t.MemoryMap? && e in t.entries && e.kind == Boot.AVAILABLE && e.addr > LOW_MEMORY && InRegion(i, e.addr, e.len)
  }

  lemma FirmwareFreeExactly(tags: seq<Boot.Tag>, i: nat)
    ensures FirmwareFree(tags, i) <==>
              exists t, e ::
                t in tags && t.MemoryMap? && e in t.entries && e.kind == 1 && e.addr > 0x10_0000 &&
                e.addr / 4096 <= i < (e.addr + e.len + 4095) % 0x1_0000_0000_0000_0000 / 4096
  {
    if t, e :| t in tags && t.MemoryMap? && e in t.entries && e.kind == 1 && e.addr > 0x10_0000 &&
               e.addr / 4096 <= i < (e.addr + e.len + 4095) % 0x1_0000_0000_0000_0000 / 4096 {
      assert FromEntry(t, e, i);
    }
    if FirmwareFree(tags, i) {
      var t, e :| t in tags && FromEntry(t, e, i);
      RegionExactly(i, e.addr, e.len);
    }
  }

  lemma {:induction false} UsableComesFrom(es: seq<Boot.MapEntry>, x: Entry)
    requires x in Boot.Usable(es)
    ensures exists e :: e in es && e.kind == Boot.AVAILABLE && x == Entry(e.addr, e.len, USABLE)
  {
    var e := es[0];
    if x in Boot.Usable(es[1..]) {
      UsableComesFrom(es[1..], x);
    } else {
      assert e in es && x == Entry(e.addr, e.len, USABLE);
    }
  }

  lemma {:induction false} MapComesFrom(tags: seq<Boot.Tag>, x: Entry)
    requires Boot.MapOf(tags).Some? && x in Boot.MapOf(tags).value
    ensures exists t, e ::
              t in tags && t.MemoryMap? && e in t.entries && e.kind == Boot.AVAILABLE &&
              x == Entry(e.addr, e.len, USABLE)
  {
    if Boot.MapOf(tags[1..]).Some? {
      MapComesFrom(tags[1..], x);
    } else {
      UsableComesFrom(tags[0].entries, x);
      assert tags[0] in tags;
    }
  }

  /** Boot information in, page allocator out: every page it will ever hand out is backed by an available entry of the
      firmware, and is neither page 0 nor part of the bitmap. */
  method BootPages(info: seq<byte>, ghost tags: seq<Boot.Tag>) returns (r: InitResult, pmm: Allocator)
    requires Boot.IsInfo(info, tags)
    ensures fresh(pmm)
    ensures r == InitNullResponse <==> Boot.MapOf(tags) == None
    ensures r == InitOk ==>
              pmm.Valid() && fresh(pmm.bitmap) && pmm.FreeFrom(Boot.MapOf(tags).value) &&
              forall i: nat :: i in pmm.Free() ==> FirmwareFree(tags, i)
  {
    var boot := new Boot.BootInfo();
    var ended;
    ghost var stops;
    ended, stops := boot.Walk(info, tags);
    pmm := new Allocator();
    r := pmm.Init(boot.Map());
    if r == InitOk {
      ghost var es := Boot.MapOf(tags).value;
      forall i: nat | i in pmm.Free() ensures FirmwareFree(tags, i) {
        var x :| x in es && Freed(x) && InRegion(i, x.base, x.length);
        MapComesFrom(tags, x);
        var t, e :| t in tags && t.MemoryMap? && e in t.entries && e.kind == Boot.AVAILABLE &&
                    x == Entry(e.addr, e.len, USABLE);
        assert FromEntry(t, e, i);
      }
    }
  }

  /** Nothing that the code writes through table pointers ever maps an address of the heap: its first header faults. */
  lemma BootedWithoutHeap(vmm: Vmm.Manager, stack: seq<u64>, ws: seq<Vmm.Write>, v: u64)
    requires vmm.Valid() && |stack| <= STACK_PAGES && forall u: u64 :: vmm.View(u) == StackView(u, stack, ALL_STEPS)
    requires (forall w :: w in ws ==> w.page < 0x8000_0000_0000) && Vma.HEAP_BASE <= v < Vma.HEAP_BASE + TOP_LIMIT
    ensures Lookup(Vmm.WriteAll(vmm.mem, vmm.pml4, ws), vmm.pml4, v) == Unmapped
  {
    hide StackView, Tree, WalkFrom, FreeSet, PaddingLocked, Vmm.WriteAll;
    forall u: u64 ensures Lookup(vmm.mem, vmm.pml4, u) == StackView(u, stack, ALL_STEPS) {
      assert vmm.View(u) == Lookup(vmm.mem, vmm.pml4, u);
    }
    Vmm.TablesOutOfReach(vmm.mem, vmm.tab, vmm.pml4, stack, ws);
    Vmm.SameLookup(Vmm.WriteAll(vmm.mem, vmm.pml4, ws), vmm.mem, vmm.pml4, v);
    Vma.BootLeavesRange(v, stack, ALL_STEPS);
  }

  /** On to the page tables, with the kernel loop stopped after n steps. They are built exactly with pages enough; after
      the switch to them the allocator's pages are in place if and only if the loop stopped after 2 GiB at the latest.
      As the code has it, no table is, and there never is a heap. */
  method BootTables(info: seq<byte>, ghost tags: seq<Boot.Tag>, ram: Memory, n: nat)
    returns (ok: bool, vmm: Vmm.Manager?, ghost usable: set<nat>)
    requires Boot.IsInfo(info, tags) && n <= 0x800 && forall i: nat :: FirmwareFree(tags, i) ==> i * PAGE_SIZE in ram
    ensures forall i :: i in usable ==> FirmwareFree(tags, i)
    ensures ok <==> |usable| >= BootTableCount(n) + 12
    ensures ok ==> vmm != null && fresh(vmm) && fresh(vmm.pmm.bitmap)
    ensures ok ==> vmm.Valid() && vmm.faithful && vmm.tab.Keys == StackTables(n, STACK_PAGES) &&
                   vmm.pmm.Free() <= usable &&
                   |vmm.pmm.Free()| == |usable| - BootTableCount(n) - 12 && Vmm.TablesFrom(vmm.tab, map[], usable) &&
                   forall v: u64 :: Vma.HeapWalk(vmm.View(v), v, [])
    ensures ok ==> (vmm.InPlace() <==> n <= KERNEL_STEPS)
    ensures ok && n == ALL_STEPS ==>
              forall ws: seq<Vmm.Write>, v: u64 ::
                (forall w :: w in ws ==> w.page < 0x8000_0000_0000) &&
                Vma.HEAP_BASE <= v < Vma.HEAP_BASE + TOP_LIMIT ==>
                  Lookup(Vmm.WriteAll(vmm.mem, vmm.pml4, ws), vmm.pml4, v) == Unmapped
    ensures ok && n == ALL_STEPS ==>
              forall p :: p in vmm.tab ==>
                vmm.tab[p] < WORD64 && Translate(vmm.View(vmm.tab[p]), vmm.tab[p]) == Some(vmm.tab[p] + 0x8000_0000)
  {
    hide FreeSet, PaddingLocked, Lookup, Tree, StackView, Translate, InFreed, InRegion, Vma.HeapWalk, Vmm.TablesHeld,
         Vmm.TablesFrom, Vmm.PagesHeld, BootMap.StackTables, Boot.IsInfo, Boot.MapOf, Vmm.WriteAll;
    var r, pmm := BootPages(info, tags);
    if r != InitOk {
      return false, null, {};
    }
    usable := pmm.Free();
    var manager := new Vmm.Manager(pmm, ram);
    vmm := manager;
    var built;
    ghost var stack;
    built, stack := manager.Init(n);
    ok := built == Vmm.VmmOk;
    if ok {
      manager.InPlaceExactlyIfStopped(stack, n);
      if n == ALL_STEPS {
        forall ws: seq<Vmm.Write>, v: u64 |
          (forall w :: w in ws ==> w.page < 0x8000_0000_0000) && Vma.HEAP_BASE <= v < Vma.HEAP_BASE + TOP_LIMIT
          ensures Lookup(Vmm.WriteAll(manager.mem, manager.pml4, ws), manager.pml4, v) == Unmapped
        {
          BootedWithoutHeap(manager, stack, ws, v);
        }
      }
      forall v: u64 ensures Vma.HeapWalk(vmm.View(v), v, []) { Vma.BootLeavesRange(v, stack, n); }
    }
  }

  /** All the way to a fresh heap, with a kernel loop that stops after 2 GiB at the latest. The heap is there exactly
      with pages enough, and every byte of it lies in a page of an available firmware entry that is neither a table nor
      free. */
  method Start(info: seq<byte>, ghost tags: seq<Boot.Tag>, ram: Memory, n: nat)
    returns (ok: bool, heap: Vma.Heap?, ghost usable: set<nat>)
    requires Boot.IsInfo(info, tags) && n <= KERNEL_STEPS
    requires forall i: nat :: FirmwareFree(tags, i) ==> i * PAGE_SIZE in ram
    ensures forall i :: i in usable ==> FirmwareFree(tags, i)
    ensures ok <==> |usable| >= BootTableCount(n) + 19
    ensures ok ==> heap != null && fresh(heap) && fresh(heap.vmm) && fresh(heap.vmm.pmm.bitmap)
    ensures ok ==> heap.vmm.faithful && heap.vmm.InPlace() &&
                   HeapRuns.At(heap, HeapRuns.Start(|usable| - BootTableCount(n) - 19, heap.vmm.tab.Keys))
    ensures ok ==> forall v: u64 :: Vma.HEAP_BASE <= v < heap.heapEnd ==>
              match Translate(heap.vmm.View(v), v)
              case None => false
              case Some(a) => a % PAGE_SIZE == v % PAGE_SIZE && FirmwareFree(tags, a / PAGE_SIZE) &&
                              a / PAGE_SIZE !in heap.vmm.pmm.Free() && a / PAGE_SIZE * PAGE_SIZE !in heap.vmm.tab.Values
  {
    hide FreeSet, PaddingLocked, Lookup, Tree, StackView, Translate, Vma.HeapWalk, Vmm.TablesHeld, Vmm.TablesFrom,
         Vmm.PagesHeld, BootMap.StackTables, Boot.IsInfo, Vma.Demand, Vma.Growable, Vmm.Manager.Valid, Vmm.Manager.View,
         Vmm.Manager.InPlace, FirmwareFree;
    var built, vmm;
    built, vmm, usable := BootTables(info, tags, ram, n);
    heap := null;
    if !built { return false, heap, usable; }
    var h := new Vma.Heap(vmm, map[]);
    heap := h;
    Vmm.NoPagesHeld(vmm.tab, vmm.pmm.Free(), vmm.pmm.pageCount);
    Vma.BootDemand(n);
    ghost var keys := vmm.tab.Keys;
    if |vmm.pmm.Free()| >= 7 { Vma.DemandMet(|vmm.pmm.Free()|, keys, Vma.HEAP_BASE, Vma.HEAP_SIZE / PAGE_SIZE); }
    var r := h.Init();
    ok := r == Vma.VmaOk;
    if ok {
      HeapBytes(h, tags);
    }
  }

  /** Where the bytes of a heap lie whose pages come from the firmware. */
  lemma HeapBytes(heap: Vma.Heap, tags: seq<Boot.Tag>)
    requires heap.Valid() && forall p :: p in heap.frames ==> FirmwareFree(tags, p / PAGE_SIZE)
    ensures forall v: u64 :: Vma.HEAP_BASE <= v < heap.heapEnd ==>
              match Translate(heap.vmm.View(v), v)
              case None => false
              case Some(a) => a % PAGE_SIZE == v % PAGE_SIZE && FirmwareFree(tags, a / PAGE_SIZE) &&
                              a / PAGE_SIZE !in heap.vmm.pmm.Free() && a / PAGE_SIZE * PAGE_SIZE !in heap.vmm.tab.Values
  {
    hide Translate, FirmwareFree, Vma.Heap.Valid, Vmm.Manager.View, FreeSet;
    forall v: u64 | Vma.HEAP_BASE <= v < heap.heapEnd
      ensures match Translate(heap.vmm.View(v), v)
              case None => false
              case Some(a) => a % PAGE_SIZE == v % PAGE_SIZE && FirmwareFree(tags, a / PAGE_SIZE) &&
                              a / PAGE_SIZE !in heap.vmm.pmm.Free() && a / PAGE_SIZE * PAGE_SIZE !in heap.vmm.tab.Values
    {
      heap.Backed(v);
      var page := heap.frames[(v - Vma.HEAP_BASE) / PAGE_SIZE];
      assert page in heap.frames;
      PageOffset(page, v % PAGE_SIZE);
    }
  }

  lemma PageOffset(page: nat, o: nat)
    requires page % PAGE_SIZE == 0 && o < PAGE_SIZE
    ensures (page + o) / PAGE_SIZE == page / PAGE_SIZE && (page + o) % PAGE_SIZE == o
    ensures page / PAGE_SIZE * PAGE_SIZE == page
  {
    DivUnique(page + o, PAGE_SIZE, page / PAGE_SIZE, o);
  }
}
