/** Whole runs of the heap: any sequence of allocations and of frees of what was allocated. */
module HeapRuns {
  import opened Bits
  import opened Blocks
  import opened PageTables
  import opened Pmm
  import Vma

  datatype Op = Malloc(size: u64) | Free(ptr: nat)

  /** The block list and its end, the number of free pages and the page tables that growth draws on, and the caller's
      record of live pointers with the sizes asked for. */
  datatype State = State(bs: seq<Block>, hi: nat, free: nat, keys: set<Path>, ledger: map<nat, nat>)

  /** A fresh heap. */
  function Start(free: nat, keys: set<Path>): State {
    State([Block(Vma.HEAP_BASE, Vma.HEAP_SIZE - HEADER, true)], Vma.HEAP_BASE + Vma.HEAP_SIZE, free, keys, map[])
  }

  /** The list is canonical and its live blocks are those of the record, each large enough. */
  ghost predicate Inv(s: State) {
    Canonical(s.bs, Vma.HEAP_BASE, s.hi) && s.bs != [] &&
    (forall p :: p in s.ledger ==> exists i: nat :: Owns(s.bs, i, p) && s.ledger[p] <= s.bs[i].size) &&
    (forall b :: b in Live(s.bs) ==> b.Payload() in s.ledger)
  }

  /** A request of n bytes has to grow the heap. */
  predicate Grows(s: State, n: nat) { n > 0 && FirstFit(s.bs, n) == |s.bs| }

  ghost predicate CanGrow(s: State, n: nat) { s.free >= Vma.Demand(s.keys, s.hi, PagesFor(n)) }

  /** Callers free only what they hold and stay below the largest request, and no growth ends with a page that is not
      mapped. A growth may well find a page without the page for its table. */
  ghost predicate Legal(s: State, op: Op) {
    match op
    case Malloc(size) =>
      size <= Vma.MAX_REQUEST &&
      (Grows(s, Vma.RoundUp(size)) ==> !Vma.LastUnmapped(s.free, s.keys, s.hi, PagesFor(Vma.RoundUp(size))))
    case Free(ptr) => ptr == 0 || ptr in s.ledger
  }

  /** The call maps every page that it takes. */
  ghost predicate Maps(s: State, op: Op) {
    op.Malloc? && Grows(s, Vma.RoundUp(op.size)) ==> Vma.Growable(s.free, s.keys, s.hi, PagesFor(Vma.RoundUp(op.size)))
  }

  ghost function Step(s: State, op: Op): (s': State)
    requires Inv(s) && Legal(s, op)
  {
    match op
    case Malloc(size) =>
      var n := Vma.RoundUp(size);
      var (bs, hi, ptr) := Serve(s.bs, s.hi, n, CanGrow(s, n));
      var (free, keys) := if Grows(s, n) then Vma.Left(s.free, s.keys, s.hi, PagesFor(n)) else (s.free, s.keys);
      State(bs, hi, free, keys, if ptr == 0 then s.ledger else s.ledger[ptr := size])
    case Free(ptr) =>
      if ptr == 0 then s
      else
        assert exists i: nat :: Owns(s.bs, i, ptr);
        var i: nat :| Owns(s.bs, i, ptr);
        State(Release(s.bs, i), s.hi, s.free, s.keys, s.ledger - {ptr})
  }

  ghost predicate Runs(s: State, ops: seq<Op>, s': State)
    decreases |ops|
  {
    if ops == [] then s' == s
    else Inv(s) && Legal(s, ops[0]) && Runs(Step(s, ops[0]), ops[1..], s')
  }

  lemma StartInv(free: nat, keys: set<Path>)
    ensures Inv(Start(free, keys))
  {
    var s := Start(free, keys);
    var b := s.bs[0];
    assert s.bs[1..] == [] && b.End() == s.hi;
    assert Tiles(s.bs[1..], b.End(), s.hi);
    assert Tiles(s.bs, Vma.HEAP_BASE, s.hi);
  }

  /** A live block is found by its payload in any list that has it. */
  lemma StillOwned(bs: seq<Block>, i: nat, p: nat, bs': seq<Block>) returns (j: nat)
    requires Owns(bs, i, p) && bs[i] in Live(bs')
    ensures Owns(bs', j, p) && bs'[j] == bs[i]
  {
    j :| j < |bs'| && bs'[j] == bs[i];
  }

  lemma LiveAt(bs: seq<Block>, k: nat)
    requires k < |bs| && !bs[k].free
    ensures bs[k] in Live(bs)
  {
  }

  lemma LiveIndex(bs: seq<Block>, b: Block) returns (k: nat)
    requires b in Live(bs)
    ensures k < |bs| && bs[k] == b && !b.free
  {
    k :| k < |bs| && bs[k] == b;
  }

  lemma MallocKeepsInv(s: State, size: u64)
    requires Inv(s) && Legal(s, Malloc(size))
    ensures Inv(Step(s, Malloc(size)))
  {
    hide Tiles, NoFreePair, Serve, Source, FirstFit, Place, Vma.RoundUp, Vma.Left, Vma.Growable, CanGrow, Live;
    var n := Vma.RoundUp(size);
    var grows := CanGrow(s, n);
    Vma.RoundUpZero(size);
    if size > 0 { Vma.GrowthSufficesExactly(size); }
    ServeFacts(s.bs, Vma.HEAP_BASE, s.hi, n, grows);
    var (bs, hi, ptr) := Serve(s.bs, s.hi, n, grows);
    var s' := Step(s, Malloc(size));
    if ptr != 0 {
      var k := FirstFit(Source(s.bs, s.hi, n).0, n);
      TilesInjective(bs, Vma.HEAP_BASE, hi);
      forall p | p in s'.ledger ensures exists i: nat :: Owns(bs, i, p) && s'.ledger[p] <= bs[i].size {
        if p == ptr {
          assert Owns(bs, k, p);
        } else {
          var i: nat :| Owns(s.bs, i, p) && s.ledger[p] <= s.bs[i].size;
          LiveAt(s.bs, i);
          var j := StillOwned(s.bs, i, p, bs);
        }
      }
    }
  }

  lemma FreeKeepsInv(s: State, ptr: nat)
    requires Inv(s) && (ptr == 0 || ptr in s.ledger)
    ensures Inv(Step(s, Free(ptr)))
  {
    hide Tiles, NoFreePair, Release, Live;
    if ptr != 0 {
      assert exists i: nat :: Owns(s.bs, i, ptr);
      var i: nat :| Owns(s.bs, i, ptr) &&
                    Step(s, Free(ptr)) == State(Release(s.bs, i), s.hi, s.free, s.keys, s.ledger - {ptr});
      var bs := Release(s.bs, i);
      ReleaseCanonical(s.bs, Vma.HEAP_BASE, s.hi, i);
      TilesInjective(s.bs, Vma.HEAP_BASE, s.hi);
      assert bs != [] by { ReleaseNonEmpty(s.bs, i); }
      forall p | p in s.ledger - {ptr} ensures exists j: nat :: Owns(bs, j, p) && s.ledger[p] <= bs[j].size {
        var k: nat :| Owns(s.bs, k, p) && s.ledger[p] <= s.bs[k].size;
        LiveAt(s.bs, k);
        assert s.bs[k] != s.bs[i];
        var j := StillOwned(s.bs, k, p, bs);
      }
      forall b | b in Live(bs) ensures b.Payload() in s.ledger - {ptr} {
        var k := LiveIndex(s.bs, b);
        assert b.Payload() == ptr ==> k == i;
      }
    }
  }

  lemma ReleaseNonEmpty(bs: seq<Block>, i: nat)
    requires i < |bs|
    ensures Release(bs, i) != []
  {
  }

  lemma StepKeepsInv(s: State, op: Op)
    requires Inv(s) && Legal(s, op)
    ensures Inv(Step(s, op))
  {
    hide Inv, Step;
    match op {
      case Malloc(size) => MallocKeepsInv(s, size);
      case Free(ptr) => FreeKeepsInv(s, ptr);
    }
  }

  /** Every run from a fresh heap keeps the heap canonical and in step with the record. */
  lemma {:induction false} RunsKeepInv(s: State, ops: seq<Op>, s': State)
    requires Inv(s) && Runs(s, ops, s')
    ensures Inv(s')
    decreases |ops|
  {
    hide Inv, Step;
    if ops != [] {
      StepKeepsInv(s, ops[0]);
      RunsKeepInv(Step(s, ops[0]), ops[1..], s');
    }
  }

  lemma InvAligned(s: State, p: nat)
    requires Inv(s) && p in s.ledger
    ensures p % 8 == 0 && Vma.HEAP_BASE + HEADER <= p && p + s.ledger[p] <= s.hi
  {
    hide NoFreePair;
    TilesBounds(s.bs, Vma.HEAP_BASE, s.hi);
    var i: nat :| Owns(s.bs, i, p) && s.ledger[p] <= s.bs[i].size;
    assert s.bs[i] in s.bs && s.bs[i].End() == p + s.bs[i].size;
  }

  lemma InvApart(s: State, p: nat, q: nat)
    requires Inv(s) && p in s.ledger && q in s.ledger && p < q
    ensures p + s.ledger[p] <= q
  {
    hide NoFreePair, Tiles;
    var i: nat :| Owns(s.bs, i, p) && s.ledger[p] <= s.bs[i].size;
    var j: nat :| Owns(s.bs, j, q) && s.ledger[q] <= s.bs[j].size;
    assert s.bs[i].End() == p + s.bs[i].size && s.bs[j].End() == q + s.bs[j].size;
    assert s.bs[j].Payload() == s.bs[j].addr + HEADER && s.bs[i].Payload() == s.bs[i].addr + HEADER;
    if i < j { TilesApart(s.bs, Vma.HEAP_BASE, s.hi, i, j); }
    if j < i { TilesApart(s.bs, Vma.HEAP_BASE, s.hi, j, i); }
  }

  /** After any run, the memory handed out is aligned, within the heap, and no two live allocations overlap. */
  lemma AllocationsSound(free: nat, keys: set<Path>, ops: seq<Op>, s: State)
    requires Runs(Start(free, keys), ops, s)
    ensures forall p :: p in s.ledger ==> p % 8 == 0 && Vma.HEAP_BASE + HEADER <= p && p + s.ledger[p] <= s.hi
    ensures forall p, q :: p in s.ledger && q in s.ledger && p < q ==> p + s.ledger[p] <= q
  {
    hide Inv;
    StartInv(free, keys);
    RunsKeepInv(Start(free, keys), ops, s);
    forall p | p in s.ledger ensures p % 8 == 0 && Vma.HEAP_BASE + HEADER <= p && p + s.ledger[p] <= s.hi {
      InvAligned(s, p);
    }
    forall p, q | p in s.ledger && q in s.ledger && p < q ensures p + s.ledger[p] <= q {
      InvApart(s, p, q);
    }
  }

  /** The history of a heap leaves no trace: two runs that end with the same live blocks and the same heap end have the
      same block list, free blocks included. */
  lemma HistoryIndependent(free: nat, keys: set<Path>, ops: seq<Op>, s: State,
                           free': nat, keys': set<Path>, ops': seq<Op>, s': State)
    requires Runs(Start(free, keys), ops, s) && Runs(Start(free', keys'), ops', s') && Live(s.bs) == Live(s'.bs) &&
             s.hi == s'.hi
    ensures s.bs == s'.bs
  {
    StartInv(free, keys);
    StartInv(free', keys');
    RunsKeepInv(Start(free, keys), ops, s);
    RunsKeepInv(Start(free', keys'), ops', s');
    CanonicalUnique(s.bs, s'.bs, Vma.HEAP_BASE, s.hi);
  }

  // ----- runs of the code -----

  ghost predicate LegalRun(s: State, ops: seq<Op>)
    decreases |ops|
  {
    ops == [] || (Inv(s) && Legal(s, ops[0]) && LegalRun(Step(s, ops[0]), ops[1..]))
  }

  ghost predicate AllMap(s: State, ops: seq<Op>)
    requires LegalRun(s, ops)
    decreases |ops|
  {
    ops == [] || (Maps(s, ops[0]) && AllMap(Step(s, ops[0]), ops[1..]))
  }

  /** The heap is in this state. */
  ghost predicate At(heap: Vma.Heap, s: State)
    reads heap, heap.vmm, heap.vmm.pmm, heap.vmm.pmm.bitmap
  {
    heap.Valid() && heap.blocks == s.bs && heap.heapEnd == s.hi && |heap.vmm.pmm.Free()| == s.free &&
    heap.vmm.tab.Keys == s.keys
  }

  /** One call on the heap is one step. */
  method Perform(heap: Vma.Heap, op: Op, ghost s: State)
    requires At(heap, s) && Inv(s) && Legal(s, op)
    modifies heap, heap.vmm, heap.vmm.pmm.bitmap
    ensures At(heap, Step(s, op)) && heap.vmm.faithful == (old(heap.vmm.faithful) && Maps(s, op))
  {
    hide Vma.Heap.Valid, FreeSet, Tiles, NoFreePair, Release, Serve, FirstFit, Vma.RoundUp, Vma.Demand, Vma.Growable,
         Vma.Left, Vma.LastUnmapped, Live;
    match op {
      case Malloc(size) =>
        Vma.RoundUpZero(size);
        if !Grows(s, Vma.RoundUp(size)) { ServedWithin(s.bs, s.hi, Vma.RoundUp(size)); }
        var ptr := heap.Malloc(size);
      case Free(ptr) =>
        heap.Free(ptr);
    }
  }

  /** Any run of legal calls on a heap: it keeps in step with the record of the callers, and at the end the heap is
      intact and the live allocations are aligned, within the heap, and apart. */
  method RunAll(heap: Vma.Heap, ops: seq<Op>, ghost s: State) returns (ghost s': State)
    requires At(heap, s) && Inv(s) && LegalRun(s, ops)
    modifies heap, heap.vmm, heap.vmm.pmm.bitmap
    ensures Runs(s, ops, s') && At(heap, s') && heap.vmm.faithful == (old(heap.vmm.faithful) && AllMap(s, ops))
    ensures forall p :: p in s'.ledger ==> p % 8 == 0 && Vma.HEAP_BASE + HEADER <= p && p + s'.ledger[p] <= heap.heapEnd
    ensures forall p, q :: p in s'.ledger && q in s'.ledger && p < q ==> p + s'.ledger[p] <= q
  {
    hide Vma.Heap.Valid, At, Inv, Step, Maps;
    s' := s;
    var k := 0;
    assert ops[0..] == ops;
    while k < |ops|
      invariant 0 <= k <= |ops| && At(heap, s') && Inv(s') && LegalRun(s', ops[k..])
      invariant (heap.vmm.faithful && AllMap(s', ops[k..])) == (old(heap.vmm.faithful) && AllMap(s, ops))
      invariant forall t :: Runs(s', ops[k..], t) ==> Runs(s, ops, t)
    {
      assert ops[k..][0] == ops[k] && ops[k..][1..] == ops[k + 1..];
      StepKeepsInv(s', ops[k]);
      Perform(heap, ops[k], s');
      s' := Step(s', ops[k]);
      k := k + 1;
    }
    assert Runs(s', ops[k..], s');
    assert heap.heapEnd == s'.hi by { EndAt(heap, s'); }
    forall p | p in s'.ledger ensures p % 8 == 0 && Vma.HEAP_BASE + HEADER <= p && p + s'.ledger[p] <= s'.hi {
      InvAligned(s', p);
    }
    forall p, q | p in s'.ledger && q in s'.ledger && p < q ensures p + s'.ledger[p] <= q {
      InvApart(s', p, q);
    }
  }

  lemma EndAt(heap: Vma.Heap, s: State)
    requires At(heap, s)
    ensures heap.heapEnd == s.hi
  {
  }
}
