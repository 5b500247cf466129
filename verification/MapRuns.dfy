/** Whole runs of mappings: the page tables act as a map in which the last mapping of an address counts. */
module MapRuns {
  import opened Bits
  import opened Pmm
  import opened PageTables
  import opened Entries
  import Vmm

  datatype Mapping = SmallPage(virt: u64, phys: u64, flags: u64) | HugePage(virt: u64, phys: u64, flags: u64)

  function Level(op: Mapping): nat { if op.SmallPage? then 3 else 2 }

  predicate Aligned(op: Mapping) { op.virt % (if op.SmallPage? then PAGE_SIZE else HUGE_SIZE) == 0 }

  /** What one call makes of the walk w of address v; unaligned calls do nothing. */
  function Applied(op: Mapping, v: u64, w: Walk): Walk {
    match op
    case SmallPage(virt, phys, flags) =>
      if virt % PAGE_SIZE == 0 && PageOf(v) == PageOf(virt) then Leaf(1, PageEntry(phys, flags)) else w
    case HugePage(virt, phys, flags) =>
      if virt % HUGE_SIZE == 0 && HugePageOf(v) == HugePageOf(virt) then Leaf(2, HugeEntry(phys, flags)) else w
  }

  /** The tables a call takes and those there are after it. */
  function Needs(op: Mapping, keys: set<Path>): nat {
    if Aligned(op) then Missing(keys, PathOf(op.virt), Level(op)) else 0
  }

  function KeysWith(op: Mapping, keys: set<Path>): set<Path> {
    if !Aligned(op) then keys
    else if op.SmallPage? then keys + Prefixes(PathOf(op.virt), 3)
    else keys + Prefixes(PathOf(op.virt), 2) - {PathOf(op.virt)[..3]}
  }

  // The same for a run of calls.

  /** What is left of the walk w of address v: the last mapping that covers it. */
  function Replay(ops: seq<Mapping>, v: u64, w: Walk): Walk {
    if ops == [] then w else Applied(ops[|ops| - 1], v, Replay(ops[..|ops| - 1], v, w))
  }

  function KeysAfter(ops: seq<Mapping>, keys: set<Path>): set<Path> {
    if ops == [] then keys else KeysWith(ops[|ops| - 1], KeysAfter(ops[..|ops| - 1], keys))
  }

  function Used(ops: seq<Mapping>, keys: set<Path>): nat {
    if ops == [] then 0 else Used(ops[..|ops| - 1], keys) + Needs(ops[|ops| - 1], KeysAfter(ops[..|ops| - 1], keys))
  }

  /** No 4 KiB mapping is made inside a 2 MiB page, which the code does not look for. */
  ghost predicate Applicable(ops: seq<Mapping>, mem: Memory, root: nat) {
    forall k :: 0 <= k < |ops| && ops[k].SmallPage? ==>
      forall e: u64 :: Replay(ops[..k], ops[k].virt, Lookup(mem, root, ops[k].virt)) != Leaf(2, e)
  }

  /** One mapping; it takes place exactly with pages for its tables. */
  method Map(vmm: Vmm.Manager, op: Mapping)
    requires vmm.Ready() && (vmm.pmm.Free() == {} || vmm.Valid())
    modifies vmm`mem, vmm`tab, vmm`faithful, vmm.pmm.bitmap
    ensures vmm.Ready() && vmm.pmm.Free() <= old(vmm.pmm.Free()) && (vmm.faithful ==> old(vmm.faithful))
    ensures old(vmm.Valid()) && Needs(op, old(vmm.tab.Keys)) <= |old(vmm.pmm.Free())| &&
            (op.SmallPage? ==> forall e: u64 :: old(vmm.View(op.virt)) != Leaf(2, e)) ==>
              vmm.Valid() && vmm.faithful == old(vmm.faithful) && vmm.tab.Keys == KeysWith(op, old(vmm.tab.Keys)) &&
              |vmm.pmm.Free()| == |old(vmm.pmm.Free())| - Needs(op, old(vmm.tab.Keys)) &&
              Vmm.TablesFrom(vmm.tab, old(vmm.tab), old(vmm.pmm.Free())) &&
              forall v: u64 :: vmm.View(v) == Applied(op, v, old(vmm.View(v)))
    ensures old(vmm.Valid()) && Needs(op, old(vmm.tab.Keys)) > |old(vmm.pmm.Free())| ==>
              !vmm.faithful && vmm.pmm.Free() == {}
  {
    hide Vmm.Manager.Valid, Vmm.Manager.Ready, Vmm.Maps, Vmm.TablesFrom, Missing, Prefixes, PathOf, PageOf, HugePageOf,
         FreeSet, WalkFrom, PageEntry, HugeEntry;
    ghost var linked;
    match op {
      case SmallPage(virt, phys, flags) => linked := vmm.MapTable(virt, phys, flags);
      case HugePage(virt, phys, flags) => linked := vmm.MapTableHuge(virt, phys, flags);
    }
  }

  /** From any tables: every call of a run of mappings takes place if and only if there are pages for all tables that
      are missing; then every address walks to its last mapping, and the tables are a proper tree of held pages. */
  method MapAll(vmm: Vmm.Manager, ops: seq<Mapping>)
    requires vmm.Valid() && Applicable(ops, vmm.mem, vmm.pml4)
    modifies vmm`mem, vmm`tab, vmm`faithful, vmm.pmm.bitmap
    ensures vmm.faithful <==> old(vmm.faithful) && Used(ops, old(vmm.tab.Keys)) <= |old(vmm.pmm.Free())|
    ensures Used(ops, old(vmm.tab.Keys)) <= |old(vmm.pmm.Free())| ==>
              vmm.Valid() && (forall v: u64 :: vmm.View(v) == Replay(ops, v, old(vmm.View(v)))) &&
              vmm.tab.Keys == KeysAfter(ops, old(vmm.tab.Keys)) &&
              Vmm.TablesFrom(vmm.tab, old(vmm.tab), old(vmm.pmm.Free())) &&
              |vmm.pmm.Free()| == |old(vmm.pmm.Free())| - Used(ops, old(vmm.tab.Keys))
  {
    hide Vmm.Manager.Valid, Lookup, Vmm.Manager.Ready, Vmm.TablesFrom, FreeSet, Replay, Applied, Used, KeysAfter, Needs,
         KeysWith;
    Vmm.NoChange(vmm.mem, vmm.tab, vmm.pml4, vmm.pmm.Free());
    ValidReady(vmm);
    ghost var keys0, free0 := vmm.tab.Keys, |vmm.pmm.Free()|;
    ReplayNothing(keys0);
    var k := 0;
    assert ops[..0] == [];
    while k < |ops|
      invariant 0 <= k <= |ops| && vmm.Ready() && vmm.pmm.Free() <= old(vmm.pmm.Free())
      invariant Used(ops[..k], keys0) <= free0 ==>
                  vmm.Valid() && vmm.faithful == old(vmm.faithful) &&
                  (forall v: u64 :: vmm.View(v) == Replay(ops[..k], v, old(vmm.View(v)))) &&
                  vmm.tab.Keys == KeysAfter(ops[..k], keys0) && |vmm.pmm.Free()| == free0 - Used(ops[..k], keys0) &&
                  Vmm.TablesFrom(vmm.tab, old(vmm.tab), old(vmm.pmm.Free()))
      invariant Used(ops[..k], keys0) > free0 ==> vmm.pmm.Free() == {} && !vmm.faithful
    {
      ghost var tab, free := vmm.tab, vmm.pmm.Free();
      Map(vmm, ops[k]);
      ReplayStep(ops, k, keys0);
      if Used(ops[..k + 1], keys0) <= free0 {
        Vmm.TablesFromTwice(vmm.tab, tab, old(vmm.tab), free, old(vmm.pmm.Free()));
      }
      k := k + 1;
    }
    assert ops[..k] == ops;
  }

  lemma ValidReady(vmm: Vmm.Manager)
    requires vmm.Valid()
    ensures vmm.Ready()
  {
  }

  lemma ReplayNothing(keys: set<Path>)
    ensures forall v: u64, w :: Replay([], v, w) == w
    ensures Used([], keys) == 0 && KeysAfter([], keys) == keys
  {
  }

  lemma ReplayStep(ops: seq<Mapping>, k: nat, keys: set<Path>)
    requires k < |ops|
    ensures forall v: u64, w :: Replay(ops[..k + 1], v, w) == Applied(ops[k], v, Replay(ops[..k], v, w))
    ensures KeysAfter(ops[..k + 1], keys) == KeysWith(ops[k], KeysAfter(ops[..k], keys))
    ensures Used(ops[..k + 1], keys) == Used(ops[..k], keys) + Needs(ops[k], KeysAfter(ops[..k], keys))
  {
    hide Applied, Needs, KeysWith;
    assert ops[..k + 1][..k] == ops[..k];
  }
}
