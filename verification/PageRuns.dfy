/** Whole runs of the page allocator, on the set of free pages that its bitmap stands for. */
module PageRuns {
  import opened Pmm

  datatype Op = Alloc | Release(page: nat)

  /** The free pages and the pages the callers hold. */
  datatype State = State(free: set<nat>, held: set<nat>)

  ghost function Least(s: set<nat>): (p: nat)
    requires s != {}
    ensures IsLeast(p, s)
  {
    LeastExists(s);
    var p :| IsLeast(p, s);
    p
  }

  lemma {:induction false} LeastExists(s: set<nat>)
    requires s != {}
    ensures exists p :: IsLeast(p, s)
  {
    var q :| q in s;
    if s == {q} {
      assert IsLeast(q, s);
    } else {
      LeastExists(s - {q});
      var p :| IsLeast(p, s - {q});
      assert forall x :: x in s ==> x == q || x in s - {q};
      assert IsLeast(if p < q then p else q, s);
    }
  }

  /** Callers give back only pages they hold. */
  predicate Legal(s: State, op: Op) {
    op.Release? ==> op.page in s.held
  }

  ghost function Step(s: State, op: Op): State {
    match op
    case Alloc => if s.free == {} then s else State(s.free - {Least(s.free)}, s.held + {Least(s.free)})
    case Release(p) => State(s.free + {p}, s.held - {p})
  }

  ghost predicate Runs(s: State, ops: seq<Op>, s': State)
    decreases |ops|
  {
    if ops == [] then s' == s else Legal(s, ops[0]) && Runs(Step(s, ops[0]), ops[1..], s')
  }

  /** Over every run free and held pages stay apart and together stay the same: what was neither at the start, like
      page 0 and the bitmap's own pages, is never handed out. */
  lemma {:induction false} RunsConserve(s: State, ops: seq<Op>, s': State)
    requires Runs(s, ops, s') && s.free !! s.held
    ensures s'.free !! s'.held && s'.free + s'.held == s.free + s.held
    decreases |ops|
  {
    if ops != [] {
      RunsConserve(Step(s, ops[0]), ops[1..], s');
    }
  }

  ghost predicate LegalRun(s: State, ops: seq<Op>)
    decreases |ops|
  {
    ops == [] || (Legal(s, ops[0]) && LegalRun(Step(s, ops[0]), ops[1..]))
  }

  lemma LeastUnique(s: set<nat>, p: nat)
    requires IsLeast(p, s)
    ensures s != {} && p == Least(s)
  {
  }

  /** One call on the allocator is one step on the sets. */
  method Perform(pmm: Allocator, op: Op, ghost held: set<nat>) returns (grant: nat, ghost held': set<nat>)
    requires pmm.Valid() && 0 !in pmm.Free() && Legal(State(pmm.Free(), held), op)
    requires forall p :: p in held ==> 0 < p < pmm.pageCount
    modifies pmm.bitmap
    ensures pmm.Valid() && State(pmm.Free(), held') == Step(State(old(pmm.Free()), held), op)
    ensures grant != 0 ==> grant % PAGE_SIZE == 0 && grant / PAGE_SIZE in old(pmm.Free())
  {
    hide FreeSet, PaddingLocked;
    grant, held' := 0, held;
    match op {
      case Alloc =>
        grant := pmm.AllocPage();
        if grant != 0 {
          LeastUnique(old(pmm.Free()), grant / PAGE_SIZE);
          held' := held + {grant / PAGE_SIZE};
        }
      case Release(page) =>
        pmm.FreePage(page * PAGE_SIZE);
        held' := held - {page};
    }
  }

  /** Any run of calls on an allocator as it is after its initialisation: it keeps the sets in step, and each page
      handed out lies in a usable entry and is neither page 0 nor one of the bitmap's. */
  method RunAll(pmm: Allocator, ops: seq<Op>, ghost es: seq<Entry>) returns (grants: seq<nat>, ghost held: set<nat>)
    requires pmm.Valid() && pmm.FreeFrom(es)
    requires LegalRun(State(pmm.Free(), {}), ops)
    modifies pmm.bitmap
    ensures pmm.Valid() && Runs(State(old(pmm.Free()), {}), ops, State(pmm.Free(), held))
    ensures pmm.Free() !! held && pmm.Free() + held == old(pmm.Free())
    ensures forall g :: g in grants ==>
              g % PAGE_SIZE == 0 && 0 < g / PAGE_SIZE < pmm.pageCount && InFreed(es, g / PAGE_SIZE) &&
              !InRegion(g / PAGE_SIZE, pmm.bitmapBase, pmm.bitmapSize)
  {
    hide FreeSet, PaddingLocked, InFreed, InRegion, Legal;
    grants, held := [], {};
    ghost var start := State(pmm.Free(), {});
    var k := 0;
    assert ops[0..] == ops;
    while k < |ops|
      invariant 0 <= k <= |ops| && pmm.Valid() && pmm.Free() !! held && pmm.Free() + held == old(pmm.Free())
      invariant LegalRun(State(pmm.Free(), held), ops[k..])
      invariant forall s' :: Runs(State(pmm.Free(), held), ops[k..], s') ==> Runs(start, ops, s')
      invariant forall g :: g in grants ==> g % PAGE_SIZE == 0 && g / PAGE_SIZE in old(pmm.Free())
    {
      assert ops[k..][0] == ops[k] && ops[k..][1..] == ops[k + 1..];
      ghost var s, s' := State(pmm.Free(), held), Step(State(pmm.Free(), held), ops[k]);
      StepConserves(s, ops[k]);
      var grant;
      grant, held := Perform(pmm, ops[k], held);
      if grant != 0 { grants := grants + [grant]; }
      k := k + 1;
    }
    assert Runs(State(pmm.Free(), held), ops[k..], State(pmm.Free(), held));
  }

  lemma StepConserves(s: State, op: Op)
    requires Legal(s, op) && s.free !! s.held
    ensures Step(s, op).free !! Step(s, op).held && Step(s, op).free + Step(s, op).held == s.free + s.held
  {
  }

  /** The pages handed out by n allocations with no free in between. */
  ghost function Grants(free: set<nat>, n: nat): seq<nat>
    decreases n
  {
    if n == 0 || free == {} then [] else [Least(free)] + Grants(free - {Least(free)}, n - 1)
  }

  /** They rise strictly, and there are n of them as long as the free pages last. */
  lemma {:induction false} GrantsRise(free: set<nat>, n: nat)
    ensures |Grants(free, n)| == if n <= |free| then n else |free|
    ensures forall i :: 0 <= i < |Grants(free, n)| ==> Grants(free, n)[i] in free
    ensures forall i, j :: 0 <= i < j < |Grants(free, n)| ==> Grants(free, n)[i] < Grants(free, n)[j]
    decreases n
  {
    if n > 0 && free != {} {
      GrantsRise(free - {Least(free)}, n - 1);
    }
  }

  lemma GrantsStep(free: set<nat>, n: nat)
    ensures n == 0 || free == {} ==> Grants(free, n) == []
    ensures n > 0 && free != {} ==> Grants(free, n) == [Least(free)] + Grants(free - {Least(free)}, n - 1)
  {
  }

  /** n allocations in a row on the allocator hand out those pages. */
  method AllocMany(pmm: Allocator, n: nat) returns (grants: seq<nat>)
    requires pmm.Valid() && 0 !in pmm.Free()
    modifies pmm.bitmap
    ensures |grants| == if n <= |old(pmm.Free())| then n else |old(pmm.Free())|
    ensures forall i :: 0 <= i < |grants| ==> grants[i] % PAGE_SIZE == 0 && grants[i] / PAGE_SIZE in old(pmm.Free())
    ensures forall i, j :: 0 <= i < j < |grants| ==> grants[i] < grants[j]
    ensures pmm.Valid() && |pmm.Free()| == |old(pmm.Free())| - |grants|
  {
    hide FreeSet, PaddingLocked, Grants;
    grants := [];
    ghost var pages := [];
    var k := 0;
    while k < n
      invariant 0 <= k <= n && pmm.Valid() && 0 !in pmm.Free() && |pages| == |grants|
      invariant forall i :: 0 <= i < |grants| ==> grants[i] == pages[i] * PAGE_SIZE
      invariant Grants(old(pmm.Free()), n) == pages + Grants(pmm.Free(), n - k)
      invariant |pmm.Free()| == |old(pmm.Free())| - |grants|
    {
      ghost var free := pmm.Free();
      GrantsStep(free, n - k);
      var page := pmm.AllocPage();
      if page == 0 { break; }
      LeastUnique(free, page / PAGE_SIZE);
      grants, pages := grants + [page], pages + [page / PAGE_SIZE];
      k := k + 1;
    }
    GrantsStep(pmm.Free(), n - k);
    assert pages == Grants(old(pmm.Free()), n);
    GrantsRise(old(pmm.Free()), n);
    assert forall i :: 0 <= i < |grants| ==> grants[i] / PAGE_SIZE == pages[i];
  }

  /** Freeing the page just allocated restores the set of free pages. */
  method AllocThenFree(pmm: Allocator)
    requires pmm.Valid() && 0 !in pmm.Free()
    modifies pmm.bitmap
    ensures pmm.Free() == old(pmm.Free())
  {
    var page := pmm.AllocPage();
    pmm.FreePage(page);
  }
}
