/** The kernel heap: first-fit allocation out of blocks whose headers lie in the heap, which grows by mapping pages of
    the physical allocator at its end. */
module Vma {
  import opened Bits
  import opened Options
  import opened Pmm
  import opened PageTables
  import opened Entries
  import opened Blocks
  import opened BootMap
  import Vmm

  const HEAP_BASE: u64 := 0xFFFF_FA00_0000_0000
  const HEAP_SIZE: nat := 0x4000
  const HEAP_LIMIT: nat := 0x100_0000_0000

  /** The largest request whose page count is computed without overflow. */
  const MAX_REQUEST: nat := WORD64 - 4120

  /** heap_block_t; next is 0 at the end of the list. */
  datatype Header = Header(size: u64, free: bool, next: u64)
  datatype InitResult = VmaOk | VmaOutOfMemory

  /** (size + 7) & ~7, where ~7 is a mask of 61 ones above three zeros. */
  function RoundUp(size: u64): u64 { Wrap64(size + 7) / 8 * 8 }

  /** The page count of the growth step as the code computes it in 64 bits. */
  function PagesComputed(n: u64): nat {
    Wrap64(Wrap64(n + HEADER) + PAGE_SIZE - 1) / PAGE_SIZE
  }

  /** The pages counted for a request hold it and a header exactly if the request is not within 4119 bytes of 2^64. */
  lemma GrowthSufficesExactly(size: u64)
    requires size > 0
    ensures PagesComputed(RoundUp(size)) * PAGE_SIZE >= size + HEADER <==> size <= MAX_REQUEST
    ensures size <= MAX_REQUEST ==> PagesComputed(RoundUp(size)) == PagesFor(RoundUp(size)) &&
                                    size <= RoundUp(size) < size + 8 && RoundUp(size) % 8 == 0
  {
  }

  /** At the other requests too few pages are counted: none for the first one, one page for the largest. */
  lemma GrowthOverflows()
    ensures PagesComputed(RoundUp(WORD64 - 4119)) == 0 && RoundUp(WORD64 - 1) == 0 &&
            PagesComputed(RoundUp(WORD64 - 1)) == 1
  {
  }

  /** The test before the multiplication of calloc: it passes exactly the products that fit. */
  lemma CallocGuardExactly(count: nat, size: nat, sizeMax: nat)
    requires size > 0
    ensures count > sizeMax / size <==> count * size > sizeMax
  {
    var q := sizeMax / size;
    assert sizeMax == q * size + sizeMax % size;
    if count > q { MulMono(q + 1, count, size); } else { MulMono(count, q, size); }
  }

  lemma RoundUpZero(size: u64)
    requires size <= MAX_REQUEST
    ensures RoundUp(size) == 0 <==> size == 0
  {
  }

  lemma RoundUpMask(size: u64)
    ensures RoundUp(size) == And(Wrap64(size + 7), WORD64 - 8)
  {
    WidePowers();
    var a := Wrap64(size + 7);
    PowSum(61, 3);
    assert Pow2(3) == 8;
    MaskedField(a, 61, 3, 0x2000_0000_0000_0000, 8);
  }

  // ----- the list of headers in memory -----

  ghost predicate HeaderIs(headers: map<nat, Header>, bs: seq<Block>, k: nat)
    requires k < |bs|
  {
    bs[k].addr in headers &&
    headers[bs[k].addr].size == bs[k].size && headers[bs[k].addr].free == bs[k].free &&
    headers[bs[k].addr].next == if k + 1 < |bs| then bs[k + 1].addr else 0
  }

  /** Following next from the first block goes through exactly the blocks of the list. */
  ghost predicate Chain(headers: map<nat, Header>, bs: seq<Block>) {
    forall k :: 0 <= k < |bs| ==> HeaderIs(headers, bs, k)
  }

  /** A header at address a overlaps no payload of the live blocks. */
  ghost predicate MissesPayloads(live: set<Block>, a: nat) {
    forall b :: b in live ==> a + HEADER <= b.Payload() || b.End() <= a
  }

  /** The only headers that changed overlap no live payload; none was removed. */
  ghost predicate SafeWrites(headers': map<nat, Header>, headers: map<nat, Header>, live: set<Block>) {
    headers.Keys <= headers'.Keys &&
    forall a :: a in headers' && (a in headers ==> headers'[a] != headers[a]) ==> MissesPayloads(live, a)
  }

  lemma SafeWritesTwice(headers'': map<nat, Header>, headers': map<nat, Header>, headers: map<nat, Header>,
                        live: set<Block>)
    requires SafeWrites(headers'', headers', live) && SafeWrites(headers', headers, live)
    ensures SafeWrites(headers'', headers, live)
  {
    forall a | a in headers'' && (a in headers ==> headers''[a] != headers[a]) ensures MissesPayloads(live, a) {
      if a in headers' && headers''[a] == headers'[a] { assert a in headers ==> headers'[a] != headers[a]; }
    }
  }

  lemma NoWrites(headers: map<nat, Header>, live: set<Block>)
    ensures SafeWrites(headers, headers, live)
  {
  }

  /** Safe places for a header: over the header of a block, inside a free payload, and past the end. */
  lemma SafePlace(bs: seq<Block>, lo: nat, hi: nat, i: nat, a: nat)
    requires Tiles(bs, lo, hi) && i < |bs|
    requires bs[i].addr == a || (bs[i].free && bs[i].Payload() <= a && a + HEADER <= bs[i].End()) || hi <= a
    ensures MissesPayloads(Live(bs), a)
  {
    TilesBounds(bs, lo, hi);
    var b := bs[i];
    assert b.Payload() == b.addr + HEADER && b.End() == b.addr + HEADER + b.size;
    forall live | live in Live(bs) ensures a + HEADER <= live.Payload() || live.End() <= a {
      assert live in bs;
      var j :| 0 <= j < |bs| && bs[j] == live;
      if i < j {
        TilesApart(bs, lo, hi, i, j);
      } else if j < i {
        TilesApart(bs, lo, hi, j, i);
      }
    }
  }

  // ----- the header writes of the code -----

  /** The writes that take n bytes of block b. */
  function PlaceHeaders(headers: map<nat, Header>, b: Block, n: u64): map<nat, Header>
    requires b.addr in headers && headers[b.addr].size == b.size < WORD64 && b.size >= n && b.addr + HEADER + n < WORD64
  {
    var cur := headers[b.addr];
    if b.size > n + HEADER + 8 then
      var rest := b.addr + HEADER + n;
      headers[rest := Header(b.size - n - HEADER, true, cur.next)][b.addr := Header(n, false, rest)]
    else
      headers[b.addr := cur.(free := false)]
  }

  lemma ChainPlace(headers: map<nat, Header>, bs: seq<Block>, lo: nat, hi: nat, i: nat, n: u64)
    requires Tiles(bs, lo, hi) && hi < WORD64 && Chain(headers, bs) && i < |bs| && bs[i].free && bs[i].size >= n
    ensures HeaderIs(headers, bs, i) && bs[i] in bs && bs[i].End() <= hi &&
            bs[i].End() == bs[i].addr + HEADER + bs[i].size
    ensures var h := PlaceHeaders(headers, bs[i], n); Chain(h, Place(bs, i, n)) && SafeWrites(h, headers, Live(bs))
  {
    hide Live, MissesPayloads, Tiles;
    OthersElsewhere(bs, lo, hi, i);
    BlockBounds(bs, lo, hi, i);
    var b := bs[i];
    assert HeaderIs(headers, bs, i) && b.End() == b.addr + HEADER + b.size && b.Payload() == b.addr + HEADER;
    var h, r := PlaceHeaders(headers, b, n), Place(bs, i, n);
    if b.size > n + HEADER + 8 {
      var rest := b.addr + HEADER + n;
      FreshAddress(bs, lo, hi, i, rest);
      SafePlace(bs, lo, hi, i, rest);
      SafePlace(bs, lo, hi, i, b.addr);
      forall k | 0 <= k < |r| ensures HeaderIs(h, r, k) {
        if k < i {
          assert HeaderIs(headers, bs, k);
        } else if k > i + 1 {
          assert HeaderIs(headers, bs, k - 1);
        }
      }
    } else {
      SafePlace(bs, lo, hi, i, b.addr);
      forall k | 0 <= k < |r| ensures HeaderIs(h, r, k) {
        assert HeaderIs(headers, bs, k);
      }
    }
  }

  /** An address strictly inside a block is no block's address. */
  lemma FreshAddress(bs: seq<Block>, lo: nat, hi: nat, i: nat, a: nat)
    requires Tiles(bs, lo, hi) && i < |bs| && bs[i].addr < a < bs[i].End()
    ensures forall k :: 0 <= k < |bs| ==> bs[k].addr != a
  {
    forall k | 0 <= k < |bs| ensures bs[k].addr != a {
      if k < i { TilesApart(bs, lo, hi, k, i); assert bs[k].End() == bs[k].addr + HEADER + bs[k].size; }
      if i < k { TilesApart(bs, lo, hi, i, k); }
    }
  }

  /** The writes that add `bytes` mapped bytes at the end, where last is the last block. */
  function ExtendHeaders(headers: map<nat, Header>, last: Block, hi: u64, bytes: nat): map<nat, Header>
    requires last.addr in headers && HEADER <= bytes < WORD64 && last.addr != hi &&
             headers[last.addr].size + bytes < WORD64
  {
    var h := headers[hi := Header(bytes - HEADER, true, 0)];
    if last.free then h[last.addr := h[last.addr].(size := h[last.addr].size + HEADER + (bytes - HEADER))]
    else h[last.addr := h[last.addr].(next := hi)]
  }

  lemma ChainExtend(headers: map<nat, Header>, bs: seq<Block>, lo: nat, hi: u64, bytes: nat)
    requires Tiles(bs, lo, hi) && hi + bytes < WORD64 && Chain(headers, bs) && bs != [] && HEADER < bytes
    ensures var last := bs[|bs| - 1];
            HeaderIs(headers, bs, |bs| - 1) && last.addr < last.End() == hi &&
            last.End() == last.addr + HEADER + last.size
    ensures var h := ExtendHeaders(headers, bs[|bs| - 1], hi, bytes);
            Chain(h, Extend(bs, hi, bytes)) && SafeWrites(h, headers, Live(bs))
  {
    hide Live, MissesPayloads, Tiles;
    LastEnds(bs, lo, hi);
    OthersElsewhere(bs, lo, hi, |bs| - 1);
    var last := bs[|bs| - 1];
    assert HeaderIs(headers, bs, |bs| - 1) && last.End() == last.addr + HEADER + last.size;
    var h, r := ExtendHeaders(headers, last, hi, bytes), Extend(bs, hi, bytes);
    SafePlace(bs, lo, hi, |bs| - 1, hi);
    SafePlace(bs, lo, hi, |bs| - 1, last.addr);
    forall k | 0 <= k < |r| ensures HeaderIs(h, r, k) {
      if k < |bs| {
        assert HeaderIs(headers, bs, k);
      }
    }
  }

  /** The writes of one merge. */
  function MergeHeaders(headers: map<nat, Header>, a: nat): map<nat, Header>
    requires a in headers && headers[a].next in headers
    requires headers[a].size + HEADER + headers[headers[a].next].size < WORD64
  {
    var next := headers[headers[a].next];
    headers[a := Header(headers[a].size + HEADER + next.size, headers[a].free, next.next)]
  }

  lemma ChainMerge(headers: map<nat, Header>, bs: seq<Block>, lo: nat, hi: u64, k: nat)
    requires Tiles(bs, lo, hi) && Chain(headers, bs) && k + 1 < |bs|
    ensures HeaderIs(headers, bs, k) && HeaderIs(headers, bs, k + 1)
    ensures bs[k].size + HEADER + bs[k + 1].size < WORD64
    ensures Chain(MergeHeaders(headers, bs[k].addr), Merged(bs, k))
    ensures SafeWrites(MergeHeaders(headers, bs[k].addr), headers, Live(bs))
  {
    hide Live, MissesPayloads, Tiles;
    SafePlace(bs, lo, hi, k, bs[k].addr);
    OthersElsewhere(bs, lo, hi, k);
    MergedTiles(bs, lo, hi, k);
    assert HeaderIs(headers, bs, k) && HeaderIs(headers, bs, k + 1);
    var h, r := MergeHeaders(headers, bs[k].addr), Merged(bs, k);
    forall j | 0 <= j < |r| ensures HeaderIs(h, r, j) {
      if j < k {
        assert HeaderIs(headers, bs, j);
      } else if j > k {
        assert HeaderIs(headers, bs, j + 1);
      }
    }
  }

  lemma ChainMark(headers: map<nat, Header>, bs: seq<Block>, lo: nat, hi: nat, i: nat)
    requires Tiles(bs, lo, hi) && Chain(headers, bs) && i < |bs| && !bs[i].free
    ensures HeaderIs(headers, bs, i)
    ensures var h := headers[bs[i].addr := headers[bs[i].addr].(free := true)];
            Chain(h, Mark(bs, i)) && SafeWrites(h, headers, Live(Mark(bs, i)))
  {
    hide Live, MissesPayloads, Tiles;
    OthersElsewhere(bs, lo, hi, i);
    ReleaseCanonical(bs, lo, hi, i);
    SafePlace(Mark(bs, i), lo, hi, i, bs[i].addr);
    assert HeaderIs(headers, bs, i);
    var h := headers[bs[i].addr := headers[bs[i].addr].(free := true)];
    forall k | 0 <= k < |bs| ensures HeaderIs(h, Mark(bs, i), k) { assert HeaderIs(headers, bs, k); }
  }

  lemma MarkHead(bs: seq<Block>, lo: nat, hi: nat)
    requires Tiles(bs, lo, hi) && bs != []
    ensures bs[0].addr == lo
  {
  }

  /** The list ends exactly where next is 0. */
  lemma ChainStep(headers: map<nat, Header>, bs: seq<Block>, lo: nat, hi: nat, k: nat)
    requires Tiles(bs, lo, hi) && lo > 0 && Chain(headers, bs) && k < |bs|
    ensures HeaderIs(headers, bs, k) && (headers[bs[k].addr].next == 0 <==> k + 1 == |bs|)
    ensures k + 1 < |bs| ==> HeaderIs(headers, bs, k + 1) && bs[k + 1].addr >= lo
  {
    assert HeaderIs(headers, bs, k);
    if k + 1 < |bs| { BlockBounds(bs, lo, hi, k + 1); }
  }

  // ----- the mapped range -----

  /** What the walk of an address in the heap's range must be: the first |frames| pages are mapped to their frames,
      and no page is covered by a 2 MiB mapping. */
  ghost predicate HeapWalk(w: Walk, v: u64, frames: seq<u64>) {
    HEAP_BASE <= v < HEAP_BASE + TOP_LIMIT ==>
      var k := (v - HEAP_BASE) / PAGE_SIZE;
      if k < |frames| then w == Leaf(1, PageEntry(frames[k], PTE_READWRITE))
      else forall e: u64 :: w != Leaf(2, e)
  }

  /** The heap's range is 1 GiB from page number 0xFA0000000 of the 48-bit address space on. */
  lemma HeapPageOf(v: u64)
    requires HEAP_BASE <= v < HEAP_BASE + TOP_LIMIT
    ensures PageOf(v) == 0xF_A000_0000 + (v - HEAP_BASE) / PAGE_SIZE && (v - HEAP_BASE) / PAGE_SIZE < 0x4_0000
  {
    var d := v - HEAP_BASE;
    assert v == 0xF_FFFF_A000_0000 * 0x1000 + d;
    assert v / 0x1000 == 0xF_FFFF_A000_0000 + d / 0x1000;
  }

  /** Mapping the next page of the heap. */
  lemma HeapWalkStep(v: u64, frames: seq<u64>, page: u64, w: Walk, w': Walk)
    requires |frames| * PAGE_SIZE < TOP_LIMIT && HeapWalk(w, v, frames)
    requires w' == if PageOf(v) == PageOf(HEAP_BASE + |frames| * PAGE_SIZE)
               then Leaf(1, PageEntry(page, PTE_READWRITE)) else w
    ensures HeapWalk(w', v, frames + [page])
  {
    hide PageEntry, PageOf;
    HeapPageOf(HEAP_BASE + |frames| * PAGE_SIZE);
    if HEAP_BASE <= v < HEAP_BASE + TOP_LIMIT { HeapPageOf(v); }
  }

  // ----- what a growth takes -----

  /** The pages a growth needs: one for each page of heap, and the tables missing on the way. */
  ghost function Demand(keys: set<Path>, addr: nat, pages: nat): nat
    decreases pages
  {
    if pages == 0 then 0
    else
      var path := PathOf(Wrap64(addr));
      1 + Missing(keys, path, 3) + Demand(keys + Prefixes(path, 3), addr + PAGE_SIZE, pages - 1)
  }

  /** No call on the way of a growth finds the allocator with a page for the mapping but not for the tables it needs;
      an empty allocator ends the growth. */
  ghost predicate Growable(free: nat, keys: set<Path>, addr: nat, pages: nat)
    decreases pages
  {
    pages == 0 || free == 0 ||
    var path := PathOf(Wrap64(addr));
    Missing(keys, path, 3) < free &&
    Growable(free - 1 - Missing(keys, path, 3), keys + Prefixes(path, 3), addr + PAGE_SIZE, pages - 1)
  }

  /** The first call that finds a page but not its tables is the last one, so that nothing stops the growth. */
  ghost predicate LastUnmapped(free: nat, keys: set<Path>, addr: nat, pages: nat)
    decreases pages
  {
    pages > 0 && free > 0 &&
    var path := PathOf(Wrap64(addr));
    if Missing(keys, path, 3) >= free then pages == 1
    else LastUnmapped(free - 1 - Missing(keys, path, 3), keys + Prefixes(path, 3), addr + PAGE_SIZE, pages - 1)
  }

  /** What a growth of a heap leaves: the number of free pages, and the tables. A page for which the table is missing
      is lost. */
  ghost function Left(free: nat, keys: set<Path>, addr: nat, pages: nat): (nat, set<Path>)
    decreases pages
  {
    if pages == 0 || free == 0 then (free, keys)
    else
      var path := PathOf(Wrap64(addr));
      if Missing(keys, path, 3) >= free then (0, keys)
      else Left(free - 1 - Missing(keys, path, 3), keys + Prefixes(path, 3), addr + PAGE_SIZE, pages - 1)
  }

  /** What is left of a growth comes out as all of it does. */
  ghost predicate SameOutcome(free: nat, keys: set<Path>, addr: nat, pages: nat,
                              free': nat, keys': set<Path>, addr': nat, pages': nat) {
    free - Demand(keys, addr, pages) == free' - Demand(keys', addr', pages') &&
    (Growable(free, keys, addr, pages) <==> Growable(free', keys', addr', pages')) &&
    (LastUnmapped(free, keys, addr, pages) <==> LastUnmapped(free', keys', addr', pages')) &&
    Left(free, keys, addr, pages) == Left(free', keys', addr', pages')
  }

  /** One page of a growth. */
  lemma OutcomeStep(free: nat, keys: set<Path>, addr: nat, pages: nat)
    requires free > 0 && pages > 0
    ensures var path := PathOf(Wrap64(addr));
            var missing := Missing(keys, path, 3);
            if missing < free
            then SameOutcome(free, keys, addr, pages,
                             free - 1 - missing, keys + Prefixes(path, 3), addr + PAGE_SIZE, pages - 1)
            else free < Demand(keys, addr, pages) && !Growable(free, keys, addr, pages) &&
                 Left(free, keys, addr, pages) == (0, keys) && (LastUnmapped(free, keys, addr, pages) <==> pages == 1)
  {
    hide PathOf, Wrap64, Missing, Prefixes;
  }

  /** A growth that is over, because all pages are mapped or none is free. */
  lemma OutcomeEnd(free: nat, keys: set<Path>, addr: nat, pages: nat)
    requires free == 0 || pages == 0
    ensures Growable(free, keys, addr, pages) && !LastUnmapped(free, keys, addr, pages)
    ensures Left(free, keys, addr, pages) == (free, keys) && (Demand(keys, addr, pages) <= free <==> pages == 0)
  {
    hide PathOf, Wrap64, Missing, Prefixes;
  }

  /** With pages enough for all of a growth, no call strays. */
  lemma {:induction false} DemandMet(free: nat, keys: set<Path>, addr: nat, pages: nat)
    requires free >= Demand(keys, addr, pages)
    ensures Growable(free, keys, addr, pages) && !LastUnmapped(free, keys, addr, pages)
    ensures Left(free, keys, addr, pages).0 == free - Demand(keys, addr, pages)
    decreases pages
  {
    hide PathOf, Wrap64;
    if pages > 0 {
      var path := PathOf(Wrap64(addr));
      DemandMet(free - 1 - Missing(keys, path, 3), keys + Prefixes(path, 3), addr + PAGE_SIZE, pages - 1);
    }
  }

  /** A growth by some pages needs at least those and at most four times as many. */
  lemma {:induction false} DemandBounds(keys: set<Path>, addr: nat, pages: nat)
    ensures pages <= Demand(keys, addr, pages) <= 4 * pages
    decreases pages
  {
    hide PathOf, Wrap64;
    if pages > 0 {
      DemandBounds(keys + Prefixes(PathOf(Wrap64(addr)), 3), addr + PAGE_SIZE, pages - 1);
    }
  }

  /** Where all tables are there already, it needs just those, and ends well with any number of free pages. */
  lemma {:induction false} DemandWithTables(keys: set<Path>, addr: nat, pages: nat, free: nat)
    requires forall k: nat :: k < pages ==> Missing(keys, PathOf(Wrap64(addr + k * PAGE_SIZE)), 3) == 0
    ensures Demand(keys, addr, pages) == pages && Growable(free, keys, addr, pages) &&
            !LastUnmapped(free, keys, addr, pages)
    decreases pages
  {
    hide PathOf, Wrap64, Prefixes, Missing;
    if pages > 0 {
      var path := PathOf(Wrap64(addr));
      assert Missing(keys, PathOf(Wrap64(addr + 0 * PAGE_SIZE)), 3) == 0;
      AllPrefixes(keys, path);
      forall k: nat | k < pages - 1 ensures Missing(keys, PathOf(Wrap64(addr + PAGE_SIZE + k * PAGE_SIZE)), 3) == 0 {
        assert addr + PAGE_SIZE + k * PAGE_SIZE == addr + (k + 1) * PAGE_SIZE;
      }
      DemandWithTables(keys, addr + PAGE_SIZE, pages - 1, if free > 0 then free - 1 else 0);
    }
  }

  /** The address space built at boot leaves the heap's range empty. */
  lemma BootLeavesRange(v: u64, stack: seq<u64>, n: nat)
    requires |stack| <= STACK_PAGES && n <= 0x800
    ensures HeapWalk(StackView(v, stack, n), v, [])
    ensures HEAP_BASE <= v < HEAP_BASE + TOP_LIMIT ==> StackView(v, stack, n) == Unmapped
  {
    hide PageEntry, HugeEntry, PageOf, HugePageOf;
    if HEAP_BASE <= v < HEAP_BASE + TOP_LIMIT {
      HeapPageOf(v);
      HeapHugePageOf(v);
      StackPageOf();
    }
  }

  lemma HeapHugePageOf(v: u64)
    requires HEAP_BASE <= v < HEAP_BASE + TOP_LIMIT
    ensures 0x7D0_0000 <= HugePageOf(v) < 0x7D0_0200
  {
    assert 0x7FF_FFD0_0000 <= v / 0x20_0000 < 0x7FF_FFD0_0200;
  }

  lemma StackPageOf()
    ensures PageOf(STACK_BASE) == 0xF_C000_0000
  {
  }

  /** Mapping a page of the heap changes no walk of a low address. */
  lemma LowPage(a: u64, addr: u64)
    requires a < TOP_LIMIT && HEAP_BASE <= addr < HEAP_BASE + TOP_LIMIT
    ensures PageOf(a) != PageOf(addr)
  {
    HeapPageOf(addr);
    assert a / 0x1000 < 0x4_0000;
  }

  /** All addresses of the range have their page tables in one page directory. */
  lemma OneDirectory(v: u64)
    requires HEAP_BASE <= v < HEAP_BASE + TOP_LIMIT
    ensures PathOf(v)[..2] == [500, 0]
  {
    assert v / 0x4000_0000 == 0x3_FFFF_E800 && v / 0x80_0000_0000 == 0x1FF_FFF4;
  }

  lemma HeapPath(k: nat)
    requires k < 512
    ensures PathOf(Wrap64(HEAP_BASE + k * PAGE_SIZE)) == [500, 0, 0, k]
  {
    var v := HEAP_BASE + k * PAGE_SIZE;
    assert Wrap64(v) == v;
    assert v / 0x1000 == 0xF_FFFF_A000_0000 + k && v / 0x20_0000 == 0x7FF_FFD0_0000;
    assert v / 0x4000_0000 == 0x3_FFFF_E800 && v / 0x80_0000_0000 == 0x1FF_FFF4;
  }

  /** The first heap needs its four pages and the tables that are missing above them, all of those at once. */
  lemma InitDemand(free: nat, keys: set<Path>)
    ensures var pages, missing := HEAP_SIZE / PAGE_SIZE, Missing(keys, [500, 0, 0, 0], 3);
            Demand(keys, HEAP_BASE, pages) == pages + missing &&
            (Growable(free, keys, HEAP_BASE, pages) <==> free == 0 || free > missing) &&
            !LastUnmapped(free, keys, HEAP_BASE, pages)
  {
    hide PathOf, Wrap64;
    HeapPath(0);
    var path := PathOf(Wrap64(HEAP_BASE));
    var p: Path, q: Path, r: Path := [500], [500, 0], [500, 0, 0];
    assert path[..1] == p && path[..2] == q && path[..3] == r;
    assert |p| == 1 && |q| == 2 && |r| == 3;
    var keys' := keys + Prefixes(path, 3);
    forall k: nat | k < 3 ensures Missing(keys', PathOf(Wrap64(HEAP_BASE + PAGE_SIZE + k * PAGE_SIZE)), 3) == 0 {
      HeapPath(k + 1);
      var path' := PathOf(Wrap64(HEAP_BASE + (k + 1) * PAGE_SIZE));
      assert path'[..1] == p && path'[..2] == q && path'[..3] == r;
      assert HEAP_BASE + PAGE_SIZE + k * PAGE_SIZE == HEAP_BASE + (k + 1) * PAGE_SIZE;
    }
    var missing := Missing(keys, path, 3);
    DemandWithTables(keys', HEAP_BASE + PAGE_SIZE, 3, if free > missing then free - 1 - missing else 0);
  }

  /** After vmm_init seven free pages make the first heap. */
  lemma BootDemand(n: nat)
    ensures Demand(StackTables(n, STACK_PAGES), HEAP_BASE, HEAP_SIZE / PAGE_SIZE) == 7
  {
    hide StackTables, Demand;
    InitDemand(0, StackTables(n, STACK_PAGES));
    FirstIndices(n, STACK_PAGES);
    var path: Path := [500, 0, 0, 0];
    assert path[..1][0] == 500 && path[..2][0] == 500 && path[..3][0] == 500;
  }

  /** A heap of exactly 2 MiB and one free page: a growth by one page needs a second table, which it does not get. */
  lemma LastPageUnmapped(n: nat)
    ensures var keys := StackTables(n, STACK_PAGES) + {[500], [500, 0], [500, 0, 0]};
            LastUnmapped(1, keys, HEAP_BASE + 0x20_0000, 1) && Demand(keys, HEAP_BASE + 0x20_0000, 1) == 2
  {
    hide StackTables, PathOf, Wrap64;
    FirstIndices(n, STACK_PAGES);
    var p: Path, q: Path, r: Path, s: Path := [500], [500, 0], [500, 0, 0], [500, 0, 1];
    var keys := StackTables(n, STACK_PAGES) + {p, q, r};
    SecondTable();
    assert s[0] == 500 && s[2] == 1 && r[2] == 0 && |p| == 1 && |q| == 2 && |s| == 3;
    assert s !in keys;
    assert Demand(keys + Prefixes([500, 0, 1, 0], 3), HEAP_BASE + 0x20_0000 + PAGE_SIZE, 0) == 0;
  }

  lemma SecondTable()
    ensures var path := PathOf(Wrap64(HEAP_BASE + 0x20_0000));
            path == [500, 0, 1, 0] && path[..1] == [500] && path[..2] == [500, 0] && path[..3] == [500, 0, 1]
  {
    var v := HEAP_BASE + 0x20_0000;
    assert Wrap64(v) == v && v / 0x1000 == 0xF_FFFF_A000_0200 && v / 0x20_0000 == 0x7FF_FFD0_0001;
    assert v / 0x4000_0000 == 0x3_FFFF_E800 && v / 0x80_0000_0000 == 0x1FF_FFF4;
  }

  // ----- how many pages there can be -----

  ghost function PageNumbers(frames: seq<u64>): set<nat> {
    set k | 0 <= k < |frames| :: frames[k] / PAGE_SIZE
  }

  lemma {:induction false} DistinctPages(frames: seq<u64>)
    requires forall k :: 0 <= k < |frames| ==> frames[k] % PAGE_SIZE == 0
    requires forall j, k :: 0 <= j < k < |frames| ==> frames[j] != frames[k]
    ensures |PageNumbers(frames)| == |frames|
  {
    if frames != [] {
      var n := |frames| - 1;
      DistinctPages(frames[..n]);
      assert PageNumbers(frames) == PageNumbers(frames[..n]) + {frames[n] / PAGE_SIZE};
      assert frames[n] / PAGE_SIZE !in PageNumbers(frames[..n]);
    }
  }

  ghost function Below(n: nat): (s: set<nat>)
    ensures |s| == n && forall i: nat :: i in s <==> i < n
  {
    if n == 0 then {} else Below(n - 1) + {n - 1}
  }

  /** Fewer pages are handed out than the allocator has, since page 0 is not among them. */
  lemma PagesBounded(frames: seq<u64>, tab: map<Path, nat>, free: set<nat>, pageCount: nat)
    requires Vmm.PagesHeld(frames, tab, free, pageCount)
    ensures frames != [] ==> |frames| < pageCount
  {
    if frames != [] {
      DistinctPages(frames);
      assert 0 < frames[0] / PAGE_SIZE < pageCount;
      assert PageNumbers(frames) <= Below(pageCount) - {0};
      SubsetSize(PageNumbers(frames), Below(pageCount) - {0});
    }
  }

  lemma PagesHeldLess(held: seq<u64>, tab: map<Path, nat>, free: set<nat>, free': set<nat>, pageCount: nat)
    requires Vmm.PagesHeld(held, tab, free, pageCount) && free' <= free
    ensures Vmm.PagesHeld(held, tab, free', pageCount)
  {
  }

  lemma PagesStayHeld(held: seq<u64>, tab': map<Path, nat>, tab: map<Path, nat>, free': set<nat>, free: set<nat>,
                      pageCount: nat)
    requires Vmm.PagesHeld(held, tab, free, pageCount) && Vmm.TablesFrom(tab', tab, free) && free' <= free
    ensures Vmm.PagesHeld(held, tab', free', pageCount)
  {
  }

  /** When the allocator still had a page, the range has room for it. */
  lemma RoomForPage(held: seq<u64>, page: u64, tab: map<Path, nat>, free: set<nat>, pageCount: nat)
    requires Vmm.PagesHeld(held, tab, free, pageCount) && Vmm.TablesHeld(tab, free, pageCount)
    requires page % PAGE_SIZE == 0 && 0 < page / PAGE_SIZE < pageCount && page / PAGE_SIZE in free
    requires pageCount * PAGE_SIZE <= TOP_LIMIT
    ensures |held| * PAGE_SIZE < TOP_LIMIT && HEAP_BASE + |held| * PAGE_SIZE < WORD64
    ensures Vmm.PagesHeld(held + [page], tab, free - {page / PAGE_SIZE}, pageCount)
  {
    var free' := free - {page / PAGE_SIZE};
    Vmm.NoChange(map[], tab, 0, free');
    Vmm.PagesHeldStep(held, page, tab, tab, free', free, pageCount);
    PagesBounded(held + [page], tab, free', pageCount);
  }

  lemma NextAddress(held: seq<u64>, w: Walk)
    requires |held| * PAGE_SIZE < TOP_LIMIT && HeapWalk(w, HEAP_BASE + |held| * PAGE_SIZE, held)
    ensures forall e: u64 :: w != Leaf(2, e)
  {
  }

  lemma OffsetInPage(u: nat)
    ensures (HEAP_BASE + u) % PAGE_SIZE == u % PAGE_SIZE
  {
    var q := u / PAGE_SIZE;
    DivUnique(HEAP_BASE + u, PAGE_SIZE, HEAP_BASE / PAGE_SIZE + q, u % PAGE_SIZE);
  }

  /** Bytes at different offsets of one page, or on different pages, are apart. */
  lemma BytesOfPages(p: nat, q: nat, r: nat, s: nat)
    requires p % PAGE_SIZE == q % PAGE_SIZE == 0 && r < PAGE_SIZE && s < PAGE_SIZE && (p != q || r != s)
    ensures p + r != q + s
  {
  }

  /** Safe writes leave every byte of a live payload alone: a header that has one of them in it is as it was. */
  lemma PayloadsUntouched(headers': map<nat, Header>, headers: map<nat, Header>, live: set<Block>, b: Block, a: nat,
                          x: nat)
    requires SafeWrites(headers', headers, live) && b in live && a in headers'
    requires a <= x < a + 24 && b.addr + 24 <= x < b.addr + 24 + b.size
    ensures a in headers && headers'[a] == headers[a]
  {
    assert b.Payload() == b.addr + HEADER && b.End() == b.addr + HEADER + b.size;
  }

  class Heap {
    const vmm: Vmm.Manager
    var headers: map<nat, Header>
    var heapHead: nat
    var heapEnd: nat
    var payload: nat -> byte
    ghost var blocks: seq<Block>
    ghost var frames: seq<u64>

    constructor (vmm: Vmm.Manager, headers: map<nat, Header>)
      ensures this.vmm == vmm && this.headers == headers && frames == []
    {
      this.vmm := vmm;
      this.headers := headers;
      heapHead, heapEnd := 0, 0;
      payload := _ => 0;
      blocks, frames := [], [];
    }

    /** The first |held| pages of the heap's range are mapped to the held pages, and the code reaches all pages of the
        allocator at their physical addresses. */
    ghost predicate Space(held: seq<u64>)
      reads vmm, vmm.pmm, vmm.pmm.bitmap
    {
      vmm.Valid() && vmm.InPlace() && Vmm.PagesHeld(held, vmm.tab, vmm.pmm.Free(), vmm.pmm.pageCount) &&
      forall v: u64 :: HeapWalk(vmm.View(v), v, held)
    }

    /** The list of blocks, apart from what it lies in. */
    ghost predicate Listed()
      reads this
    {
      heapHead == HEAP_BASE && heapEnd < WORD64 && blocks != [] && Canonical(blocks, HEAP_BASE, heapEnd) &&
      Chain(headers, blocks)
    }

    ghost predicate Valid()
      reads this, vmm, vmm.pmm, vmm.pmm.bitmap
    {
      Space(frames) && heapEnd == HEAP_BASE + |frames| * PAGE_SIZE && Listed()
    }

    /** The heap is as it should be, but for its last page, which is not mapped: the processor faults there. */
    ghost predicate Torn()
      reads this, vmm, vmm.pmm, vmm.pmm.bitmap
    {
      Space(frames) && heapEnd == HEAP_BASE + (|frames| + 1) * PAGE_SIZE && Listed() &&
      vmm.View(heapEnd - PAGE_SIZE) == Unmapped
    }

    /** Once a page of the heap is mapped, only the last table can be missing for the next one. With it missing, the
        page at addr is not mapped, and without a page for it the pointer of the code is 0, which is no table. */
    lemma OnlyLastTable(held: seq<u64>, addr: u64)
      requires Space(held) && held != [] && HEAP_BASE <= addr < HEAP_BASE + TOP_LIMIT
      ensures Missing(vmm.tab.Keys, PathOf(addr), 3) == Absent(vmm.tab.Keys, PathOf(addr)[..3]) <= 1
      ensures PathOf(addr)[..3] !in vmm.tab && (forall e: u64 :: vmm.View(addr) != Leaf(2, e)) ==>
                vmm.View(addr) == Unmapped && Vmm.Pointer(vmm.mem, vmm.pml4, PathOf(addr), 3) == 0 &&
                0 !in vmm.tab.Values
    {
      hide FreeSet, PathOf, Tree, PaddingLocked, Vmm.TablesHeld, Vmm.PagesHeld, WalkFrom, Vmm.Backed,
           Vmm.Manager.InPlace, Vmm.Pointer;
      var first := PathOf(HEAP_BASE);
      assert HeapWalk(vmm.View(HEAP_BASE), HEAP_BASE, held);
      Vmm.LeafInTree(vmm.mem, vmm.tab, vmm.pml4, first, 3, PageEntry(held[0], PTE_READWRITE));
      PrefixInTree(vmm.mem, vmm.tab, vmm.pml4, first, 2, 3);
      OneDirectory(HEAP_BASE);
      OneDirectory(addr);
      PrefixInTree(vmm.mem, vmm.tab, vmm.pml4, PathOf(addr), 1, 2);
      if PathOf(addr)[..3] !in vmm.tab && forall e: u64 :: vmm.View(addr) != Leaf(2, e) {
        Vmm.MissingLeadsToZero(vmm.mem, vmm.tab, vmm.pml4, PathOf(addr), 2);
      }
    }

    /** Maps a page just taken, which works if there are pages for the tables too. If not, the page is lost; a heap that
        has pages stays as it was, and addr is not mapped. */
    method MapTaken(addr: u64, page: u64, ghost held: seq<u64>) returns (ghost all: seq<u64>)
      requires Space(held) && addr == HEAP_BASE + |held| * PAGE_SIZE && |held| * PAGE_SIZE < TOP_LIMIT
      requires Vmm.PagesHeld(held + [page], vmm.tab, vmm.pmm.Free(), vmm.pmm.pageCount)
      modifies vmm, vmm.pmm.bitmap
      ensures vmm.Ready() && vmm.pmm.Free() <= old(vmm.pmm.Free())
      ensures var missing := Missing(old(vmm.tab.Keys), PathOf(addr), 3);
              if missing <= |old(vmm.pmm.Free())| then
                Space(all) && all == held + [page] && vmm.faithful == old(vmm.faithful) &&
                |vmm.pmm.Free()| == |old(vmm.pmm.Free())| - missing &&
                vmm.tab.Keys == old(vmm.tab.Keys) + Prefixes(PathOf(addr), 3)
              else
                !vmm.faithful && vmm.pmm.Free() == {} &&
                (held != [] ==>
                  all == held && Space(held) && vmm.View(addr) == Unmapped && vmm.tab.Keys == old(vmm.tab.Keys))
    {
      hide FreeSet, PathOf, PageOf, Tree, Missing, Prefixes, PaddingLocked, Vmm.TablesHeld, Vmm.TablesFrom,
           Vmm.PagesHeld, HeapWalk, Lookup, Vmm.Backed, Vmm.Maps, Translate, Vmm.SameWalks, Vmm.Pointer;
      ghost var free, tab, count := vmm.pmm.Free(), vmm.tab, vmm.pmm.pageCount;
      NextAddress(held, vmm.View(addr));
      if held != [] { OnlyLastTable(held, addr); }
      ghost var linked := vmm.MapTable(addr, page, PTE_READWRITE);
      all := held + [page];
      PagesStayHeld(all, vmm.tab, tab, vmm.pmm.Free(), free, count);
      if Missing(old(vmm.tab.Keys), PathOf(addr), 3) <= |old(vmm.pmm.Free())| {
        forall v: u64 ensures HeapWalk(vmm.View(v), v, all) {
          HeapWalkStep(v, held, page, old(vmm.View(v)), vmm.View(v));
        }
        forall a: u64 | a < TOP_LIMIT ensures vmm.View(a) == old(vmm.View(a)) { LowPage(a, addr); }
      } else if held != [] {
        all := held;
        PagesStayHeld(held, vmm.tab, tab, vmm.pmm.Free(), free, count);
        Vmm.NoNewTables(vmm.tab, tab, 0);
        forall v: u64 ensures vmm.View(v) == old(vmm.View(v)) {
          Vmm.SameLookup(vmm.mem, old(vmm.mem), vmm.pml4, v);
        }
      }
    }

    /** One iteration: takes a page and maps it at addr. */
    method MapNext(addr: nat, ghost held: seq<u64>) returns (ok: bool, ghost all: seq<u64>)
      requires vmm.Ready()
      requires vmm.pmm.Free() != {} ==> Space(held) && addr == HEAP_BASE + |held| * PAGE_SIZE
      modifies vmm, vmm.pmm.bitmap
      ensures vmm.Ready() && vmm.pmm.Free() <= old(vmm.pmm.Free())
      ensures ok <==> old(vmm.pmm.Free()) != {}
      ensures !ok ==> all == held && unchanged(vmm) && vmm.pmm.Free() == {} && (old(Space(held)) ==> Space(held))
      ensures ok ==>
                var missing := Missing(old(vmm.tab.Keys), PathOf(Wrap64(addr)), 3);
                if missing < |old(vmm.pmm.Free())| then
                  Space(all) && |all| == |held| + 1 && all[..|held|] == held &&
                  all[|held|] / PAGE_SIZE in old(vmm.pmm.Free()) &&
                  vmm.faithful == old(vmm.faithful) && |vmm.pmm.Free()| == |old(vmm.pmm.Free())| - 1 - missing &&
                  vmm.tab.Keys == old(vmm.tab.Keys) + Prefixes(PathOf(Wrap64(addr)), 3)
                else
                  !vmm.faithful && vmm.pmm.Free() == {} &&
                  (held != [] ==>
                    all == held && Space(held) && vmm.View(Wrap64(addr)) == Unmapped &&
                    vmm.tab.Keys == old(vmm.tab.Keys))
    {
      hide FreeSet, PathOf, PageOf, Tree, Missing, Prefixes, PaddingLocked, Vmm.TablesHeld, Vmm.TablesFrom,
           Vmm.PagesHeld, HeapWalk, Lookup, Vmm.Backed, Translate;
      ghost var free, tab, count := vmm.pmm.Free(), vmm.tab, vmm.pmm.pageCount;
      var page := vmm.pmm.AllocPage();
      if old(Space(held)) {
        Vmm.FewerFree(vmm.mem, tab, free, vmm.pmm.Free(), count);
        PagesHeldLess(held, tab, free, vmm.pmm.Free(), count);
      }
      if page == 0 { return false, held; }
      RoomForPage(held, page, tab, free, count);
      all := MapTaken(addr, page, held);
      return true, all;
    }

    /** Maps fresh pages after the held ones. It comes to the end if and only if there are pages for all of them and
        their tables, or only the last one lacks its table, and then that one is not mapped; else it stops and keeps
        what it took. A heap that has pages stays intact in every case. */
    method MapPages(base: u64, pages: nat, ghost held: seq<u64>) returns (ok: bool, ghost all: seq<u64>)
      requires Space(held) && base == HEAP_BASE + |held| * PAGE_SIZE
      modifies vmm, vmm.pmm.bitmap
      ensures vmm.Ready() && vmm.pmm.Free() <= old(vmm.pmm.Free())
      ensures ok <==> |old(vmm.pmm.Free())| >= Demand(old(vmm.tab.Keys), base, pages) ||
                      LastUnmapped(|old(vmm.pmm.Free())|, old(vmm.tab.Keys), base, pages)
      ensures vmm.faithful <==> old(vmm.faithful) && Growable(|old(vmm.pmm.Free())|, old(vmm.tab.Keys), base, pages)
      ensures held != [] || Growable(|old(vmm.pmm.Free())|, old(vmm.tab.Keys), base, pages) ==>
                Space(all) && |held| <= |all| && all[..|held|] == held &&
                (forall k :: |held| <= k < |all| ==> all[k] / PAGE_SIZE in old(vmm.pmm.Free())) &&
                (|vmm.pmm.Free()|, vmm.tab.Keys) == Left(|old(vmm.pmm.Free())|, old(vmm.tab.Keys), base, pages)
      ensures |old(vmm.pmm.Free())| >= Demand(old(vmm.tab.Keys), base, pages) ==> |all| == |held| + pages
      ensures held != [] && LastUnmapped(|old(vmm.pmm.Free())|, old(vmm.tab.Keys), base, pages) ==>
                |all| + 1 == |held| + pages && vmm.View(Wrap64(HEAP_BASE + |all| * PAGE_SIZE)) == Unmapped
    {
      hide Vmm.Manager.Valid, Vmm.Manager.View, Vmm.Manager.InPlace, Vmm.PagesHeld, HeapWalk, Missing, Prefixes, PathOf,
           PageOf, FreeSet, Wrap64, Demand, Growable, LastUnmapped, Left, Heap.Space, Vmm.Manager.Ready;
      SpaceReady(held);
      ghost var free0, keys0 := |vmm.pmm.Free()|, vmm.tab.Keys;
      all := held;
      ghost var strayed := false;
      var i: nat := 0;
      while i < pages
        invariant i <= pages && vmm.Ready() && vmm.pmm.Free() <= old(vmm.pmm.Free())
        invariant held != [] || !strayed ==>
                    Space(all) && |held| <= |all| && all[..|held|] == held &&
                    forall k :: |held| <= k < |all| ==> all[k] / PAGE_SIZE in old(vmm.pmm.Free())
        invariant !strayed ==>
                    |all| == |held| + i && vmm.faithful == old(vmm.faithful) &&
                    SameOutcome(free0, keys0, base, pages,
                                |vmm.pmm.Free()|, vmm.tab.Keys, base + i * PAGE_SIZE, pages - i)
        invariant strayed ==>
                    vmm.pmm.Free() == {} && !vmm.faithful && free0 < Demand(keys0, base, pages) &&
                    !Growable(free0, keys0, base, pages) && (LastUnmapped(free0, keys0, base, pages) <==> i == pages)
        invariant strayed && held != [] ==>
                    Left(free0, keys0, base, pages) == (0, vmm.tab.Keys) && |all| + 1 == |held| + i &&
                    vmm.View(Wrap64(HEAP_BASE + |all| * PAGE_SIZE)) == Unmapped
      {
        ghost var free, keys, addr := |vmm.pmm.Free()|, vmm.tab.Keys, base + i * PAGE_SIZE;
        if free > 0 { OutcomeStep(free, keys, addr, pages - i); } else { OutcomeEnd(free, keys, addr, pages - i); }
        strayed := strayed || (free > 0 && Missing(keys, PathOf(Wrap64(addr)), 3) >= free);
        var ok';
        ok', all := MapNext(base + i * PAGE_SIZE, all);
        if !ok' { return false, all; }
        i := i + 1;
      }
      OutcomeEnd(|vmm.pmm.Free()|, vmm.tab.Keys, base + i * PAGE_SIZE, 0);
      return true, all;
    }

    /** Sets up a heap of HEAP_SIZE bytes, if and only if there are pages for it and for the tables. */
    method Init() returns (r: InitResult)
      requires Space([])
      modifies this, vmm, vmm.pmm.bitmap
      ensures r == VmaOk <==> |old(vmm.pmm.Free())| >= Demand(old(vmm.tab.Keys), HEAP_BASE, HEAP_SIZE / PAGE_SIZE)
      ensures vmm.Ready() && vmm.pmm.Free() <= old(vmm.pmm.Free())
      ensures vmm.faithful <==> old(vmm.faithful) &&
                                Growable(|old(vmm.pmm.Free())|, old(vmm.tab.Keys), HEAP_BASE, HEAP_SIZE / PAGE_SIZE)
      ensures r == VmaOk ==>
                Valid() && heapEnd == HEAP_BASE + HEAP_SIZE && blocks == [Block(HEAP_BASE, HEAP_SIZE - HEADER, true)] &&
                (forall k :: 0 <= k < |frames| ==> frames[k] / PAGE_SIZE in old(vmm.pmm.Free())) &&
                |vmm.pmm.Free()| == |old(vmm.pmm.Free())| - Demand(old(vmm.tab.Keys), HEAP_BASE, HEAP_SIZE / PAGE_SIZE)
    {
      hide Vmm.Manager.Valid, Vmm.Manager.View, Vmm.Manager.InPlace, Vmm.Manager.Ready, Vmm.PagesHeld, HeapWalk,
           Growable, Demand, LastUnmapped, Left;
      InitDemand(|vmm.pmm.Free()|, vmm.tab.Keys);
      if |vmm.pmm.Free()| >= Demand(vmm.tab.Keys, HEAP_BASE, HEAP_SIZE / PAGE_SIZE) {
        DemandMet(|vmm.pmm.Free()|, vmm.tab.Keys, HEAP_BASE, HEAP_SIZE / PAGE_SIZE);
      }
      var ok;
      ok, frames := MapPages(HEAP_BASE, HEAP_SIZE / PAGE_SIZE, []);
      if !ok { return VmaOutOfMemory; }
      heapHead := HEAP_BASE;
      headers := headers[heapHead := Header(HEAP_SIZE - HEADER, true, 0)];
      heapEnd := HEAP_BASE + HEAP_SIZE;
      blocks := [Block(HEAP_BASE, HEAP_SIZE - HEADER, true)];
      assert Tiles(blocks, HEAP_BASE, heapEnd) by {
        assert blocks[1..] == [] && blocks[0].End() == heapEnd;
      }
      assert HeaderIs(headers, blocks, 0);
      return VmaOk;
    }

    /** The free pages are enough to grow the heap by what a request for n bytes takes. */
    ghost predicate CanGrow(n: nat)
      reads this, vmm, vmm.pmm, vmm.pmm.bitmap
    {
      |vmm.pmm.Free()| >= Demand(vmm.tab.Keys, heapEnd, PagesFor(n))
    }

    /** Growing for n bytes never finds a page without finding pages for the tables above it. */
    ghost predicate CanStop(n: nat)
      reads this, vmm, vmm.pmm, vmm.pmm.bitmap
    {
      Growable(|vmm.pmm.Free()|, vmm.tab.Keys, heapEnd, PagesFor(n))
    }

    /** Growing for n bytes comes to its end although the last page is not mapped. */
    ghost predicate Tears(n: nat)
      reads this, vmm, vmm.pmm, vmm.pmm.bitmap
    {
      LastUnmapped(|vmm.pmm.Free()|, vmm.tab.Keys, heapEnd, PagesFor(n))
    }

    ghost function LeftAfter(n: nat): (nat, set<Path>)
      reads this, vmm, vmm.pmm, vmm.pmm.bitmap
    {
      Left(|vmm.pmm.Free()|, vmm.tab.Keys, heapEnd, PagesFor(n))
    }

    lemma GrowthOutcome(n: nat)
      ensures CanGrow(n) ==> CanStop(n) && !Tears(n)
    {
      if CanGrow(n) { DemandMet(|vmm.pmm.Free()|, vmm.tab.Keys, heapEnd, PagesFor(n)); }
    }

    /** Makes the bytes after the end part of the heap: the last block takes them in, or they become a block. */
    method Append(bytes: nat, cur: nat) returns (cur': nat)
      requires Listed() && cur == blocks[|blocks| - 1].addr && HEADER < bytes && bytes % 8 == 0 &&
               heapEnd + bytes < WORD64
      modifies `headers, `heapEnd, `blocks
      ensures Listed() && SafeWrites(headers, old(headers), Live(old(blocks)))
      ensures blocks == Extend(old(blocks), old(heapEnd), bytes) && heapEnd == old(heapEnd) + bytes
      ensures |blocks| > 0 && cur' == blocks[|blocks| - 1].addr
    {
      hide Tiles, NoFreePair, Live, MissesPayloads, SafeWrites;
      cur' := cur;
      ChainExtend(headers, blocks, HEAP_BASE, heapEnd, bytes);
      ExtendCanonical(blocks, HEAP_BASE, heapEnd, bytes);
      ghost var last := blocks[|blocks| - 1];
      ghost var goal := ExtendHeaders(headers, last, heapEnd, bytes);
      var block := heapEnd;
      headers := headers[block := Header(bytes - HEADER, true, 0)];
      heapEnd := heapEnd + bytes;
      if headers[cur].free {
        headers := headers[cur := headers[cur].(size := headers[cur].size + HEADER + headers[block].size)];
      } else {
        headers := headers[cur := headers[cur].(next := block)];
        cur' := block;
      }
      assert headers == goal;
      blocks := Extend(blocks, block, bytes);
    }

    /** The growth step at the last block; it returns the block that the search goes on with. The heap is intact
        afterwards if and only if the last new page is not the one that lacks its table. */
    method Grow(n: u64, cur: nat) returns (ok: bool, cur': nat)
      requires Valid() && cur == blocks[|blocks| - 1].addr
      requires n > 0 && n % 8 == 0 && n <= MAX_REQUEST && FirstFit(blocks, n) == |blocks|
      modifies `headers, `heapEnd, `blocks, `frames, vmm, vmm.pmm.bitmap
      ensures SafeWrites(headers, old(headers), Live(old(blocks))) && vmm.pmm.Free() <= old(vmm.pmm.Free())
      ensures ok <==> old(CanGrow(n) || Tears(n))
      ensures vmm.faithful <==> old(vmm.faithful) && old(CanStop(n))
      ensures (|vmm.pmm.Free()|, vmm.tab.Keys) == old(LeftAfter(n))
      ensures if old(Tears(n)) then Torn() else Valid()
      ensures !ok ==> blocks == old(blocks) && heapEnd == old(heapEnd) && headers == old(headers)
      ensures ok ==> blocks == Extend(old(blocks), old(heapEnd), PagesFor(n) * PAGE_SIZE) &&
                     heapEnd == old(heapEnd) + PagesFor(n) * PAGE_SIZE &&
                     |blocks| > 0 && cur' == blocks[|blocks| - 1].addr
    {
      hide Vmm.Manager.Valid, Vmm.Manager.View, Vmm.Manager.InPlace, Vmm.PagesHeld, HeapWalk, Growable, Demand,
           LastUnmapped, Left, Canonical, FreeSet, Live, Chain, SafeWrites, FirstFit, Vmm.Manager.Ready;
      cur' := cur;
      GrowthOutcome(n);
      HasPages();
      NoWrites(headers, Live(blocks));
      var required := Wrap64(n + HEADER);
      var pages := Wrap64(required + PAGE_SIZE - 1) / PAGE_SIZE;
      assert pages == PagesFor(n);
      PagesHold(n);
      ghost var all;
      ok, all := MapPages(heapEnd, pages, frames);
      SpaceBound(all);
      if ok {
        frames := all;
        cur' := Append(pages * PAGE_SIZE, cur);
      } else {
        SpacePrefix(all, frames);
      }
    }

    lemma HasPages()
      requires Valid()
      ensures frames != []
    {
      TilesBounds(blocks, HEAP_BASE, heapEnd);
    }

    lemma SpacePrefix(all: seq<u64>, held: seq<u64>)
      requires Space(all) && held <= all
      ensures Space(held)
    {
      hide Vmm.Manager.Valid, Vmm.Manager.View;
      assert forall v: u64 :: HeapWalk(vmm.View(v), v, all) ==> HeapWalk(vmm.View(v), v, held);
    }

    lemma SpaceReady(held: seq<u64>)
      requires Space(held)
      ensures vmm.Ready()
    {
    }

    lemma SpaceBound(held: seq<u64>)
      requires Space(held)
      ensures HEAP_BASE + |held| * PAGE_SIZE < WORD64
      ensures |held| * PAGE_SIZE <= vmm.pmm.pageCount * PAGE_SIZE <= TOP_LIMIT
    {
      PagesBounded(held, vmm.tab, vmm.pmm.Free(), vmm.pmm.pageCount);
    }

    /** Takes n bytes of the fitting block at cur. */
    method Take(cur: nat, n: u64, ghost k: nat) returns (ptr: nat)
      requires Listed() && k < |blocks| && cur == blocks[k].addr && blocks[k].free && blocks[k].size >= n > 0 &&
               n % 8 == 0
      modifies `headers, `blocks
      ensures Listed() && SafeWrites(headers, old(headers), Live(old(blocks)))
      ensures (old(Valid()) ==> Valid()) && (old(Torn()) ==> Torn())
      ensures blocks == Place(old(blocks), k, n) && ptr == cur + HEADER
    {
      hide Vmm.Manager.View, Heap.Space, Tiles, NoFreePair, FreeSet, Live, MissesPayloads;
      ChainPlace(headers, blocks, HEAP_BASE, heapEnd, k, n);
      PlaceCanonical(blocks, HEAP_BASE, heapEnd, k, n);
      ghost var goal := PlaceHeaders(headers, blocks[k], n);
      if headers[cur].size > n + HEADER + 8 {
        var block := cur + HEADER + n;
        headers := headers[block := Header(headers[cur].size - n - HEADER, true, headers[cur].next)];
        headers := headers[cur := headers[cur].(size := n, next := block)];
      }
      headers := headers[cur := headers[cur].(free := false)];
      assert headers == goal;
      blocks := Place(blocks, k, n);
      return cur + HEADER;
    }

    lemma HeaderAt(k: nat)
      requires Listed() && k < |blocks|
      ensures HeaderIs(headers, blocks, k)
    {
    }

    lemma HeadIsFirst()
      requires Listed()
      ensures blocks != [] && HEAP_BASE <= heapEnd
      ensures blocks[0].addr == heapHead && forall k :: 0 <= k < |blocks| ==> blocks[k].addr >= HEAP_BASE
    {
      TilesBounds(blocks, HEAP_BASE, heapEnd);
    }

    /** After a growth for n bytes the last block is the first that fits. */
    lemma GrowthFits(n: nat)
      requires Listed() && n % 8 == 0 && FirstFit(blocks, n) == |blocks|
      ensures blocks != []
      ensures var r := Extend(blocks, heapEnd, PagesFor(n) * PAGE_SIZE);
              FirstFit(r, n) == |r| - 1 && Live(r) == Live(blocks)
    {
      PagesHold(n);
      GrownFits(blocks, HEAP_BASE, heapEnd, n);
      ExtendCanonical(blocks, HEAP_BASE, heapEnd, PagesFor(n) * PAGE_SIZE);
    }

    lemma ListIntact()
      ensures Valid() || Torn() ==> Listed()
      ensures !(Valid() && Torn())
    {
    }

    /** Whether a request for n bytes has to grow the heap. */
    ghost predicate Full(n: nat)
      reads this
    {
      n > 0 && FirstFit(blocks, n) == |blocks|
    }

    /** First fit; when no block fits, the heap grows once and the last block is taken. Null is returned exactly for a
        request of nothing, and when no block fits and the growth does not come to its end. The heap is intact
        afterwards if and only if no growth ended with a page that is not mapped. */
    method Malloc(size: u64) returns (ptr: nat)
      requires Valid() && size <= MAX_REQUEST
      modifies `headers, `heapEnd, `blocks, `frames, vmm, vmm.pmm.bitmap
      ensures SafeWrites(headers, old(headers), Live(old(blocks)))
      ensures var n := RoundUp(size);
              (blocks, heapEnd, ptr) == Serve(old(blocks), old(heapEnd), n, old(CanGrow(n) || Tears(n))) &&
              (ptr == 0 <==> size == 0 || (old(Full(n)) && !old(CanGrow(n) || Tears(n)))) &&
              (if old(Full(n) && Tears(n)) then Torn() else Valid()) &&
              (!old(Full(n)) ==> unchanged(vmm) && unchanged(vmm.pmm.bitmap)) &&
              (old(Full(n)) ==> (vmm.faithful <==> old(vmm.faithful) && old(CanStop(n))) &&
                                (|vmm.pmm.Free()|, vmm.tab.Keys) == old(LeftAfter(n)))
      ensures ptr == 0 ==> headers == old(headers)
    {
      hide Vmm.Manager.Valid, Vmm.Manager.View, Vmm.Manager.InPlace, Vmm.PagesHeld, HeapWalk, Tiles, NoFreePair,
           FreeSet, Live, MissesPayloads, Growable, Demand, LastUnmapped, Left, Heap.CanGrow, Heap.CanStop, Heap.Tears,
           Heap.LeftAfter, Chain, SafeWrites, Canonical, FirstFit, Place, Extend, RoundUp, PagesFor, Heap.Valid,
           Heap.Torn, Heap.Listed, Vmm.Manager.Ready;
      ptr := 0;
      ListIntact();
      HeadIsFirst();
      NoWrites(headers, Live(blocks));
      RoundUpZero(size);
      if size == 0 { return; }
      GrowthSufficesExactly(size);
      var n := RoundUp(size);
      var cur := heapHead;
      ghost var k: nat := 0;
      ghost var grown := false;
      while cur != 0
        invariant Listed() && SafeWrites(headers, old(headers), Live(old(blocks))) && Live(blocks) == Live(old(blocks))
        invariant k < |blocks| && cur == blocks[k].addr && cur > 0 && FirstFit(blocks, n) >= k
        invariant !grown ==> unchanged(this) && unchanged(vmm) && unchanged(vmm.pmm.bitmap)
        invariant if grown && old(Tears(n)) then Torn() else Valid()
        invariant grown ==> old(Full(n)) && old(CanGrow(n) || Tears(n)) &&
                            blocks == Extend(old(blocks), old(heapEnd), PagesFor(n) * PAGE_SIZE) &&
                            heapEnd == old(heapEnd) + PagesFor(n) * PAGE_SIZE &&
                            FirstFit(blocks, n) == k == |blocks| - 1 &&
                            (vmm.faithful <==> old(vmm.faithful) && old(CanStop(n))) &&
                            (|vmm.pmm.Free()|, vmm.tab.Keys) == old(LeftAfter(n))
        decreases !grown, |blocks| - k
      {
        HeadIsFirst();
        HeaderAt(k);
        if headers[cur].free && headers[cur].size >= n {
          ghost var headers1, live1 := headers, Live(blocks);
          ptr := Take(cur, n, k);
          SafeWritesTwice(headers, headers1, old(headers), live1);
          return;
        }
        if headers[cur].next == 0 {
          GrowthFits(n);
          var ok;
          ok, cur := Grow(n, cur);
          ListIntact();
          if !ok { return; }
          k, grown := |blocks| - 1, true;
          HeadIsFirst();
        } else {
          cur := headers[cur].next;
          k := k + 1;
        }
      }
      assert false;
    }

    lemma OwnerOf(ptr: nat) returns (k: nat)
      requires Valid() && exists i: nat :: Owns(blocks, i, ptr)
      ensures k < |blocks| && Owns(blocks, k, ptr) && HeaderIs(headers, blocks, k)
      ensures forall i: nat :: Owns(blocks, i, ptr) ==> i == k
    {
      k :| Owns(blocks, k, ptr);
      TilesInjective(blocks, HEAP_BASE, heapEnd);
    }

    /** Gives back the live block of a pointer from Malloc, then merges free neighbours over the whole list. */
    method Free(ptr: nat)
      requires Valid() && (ptr != 0 ==> exists i: nat :: Owns(blocks, i, ptr))
      modifies `headers, `blocks
      ensures Valid() && SafeWrites(headers, old(headers), Live(blocks))
      ensures ptr == 0 ==> blocks == old(blocks) && headers == old(headers)
      ensures ptr != 0 ==> forall i: nat :: Owns(old(blocks), i, ptr) ==> blocks == Release(old(blocks), i)
    {
      hide Vmm.Manager.Valid, Vmm.Manager.View, Vmm.PagesHeld, HeapWalk, Tiles, NoFreePair, FreeSet, Live,
           MissesPayloads, SafeWrites, Chain, Vmm.Manager.Ready, Coalesce;
      NoWrites(headers, Live(blocks));
      if ptr == 0 { return; }
      ghost var before := headers;
      ghost var i := OwnerOf(ptr);
      var block := ptr - HEADER;
      ReleaseCanonical(blocks, HEAP_BASE, heapEnd, i);
      ChainMark(headers, blocks, HEAP_BASE, heapEnd, i);
      headers := headers[block := headers[block].(free := true)];
      blocks := Mark(blocks, i);
      ghost var marked := headers;
      MergeAll();
      SafeWritesTwice(headers, marked, before, Live(blocks));
    }

    /** The pass of vma_free over the list. */
    method MergeAll()
      requires Tiles(blocks, HEAP_BASE, heapEnd) && Chain(headers, blocks) && heapEnd < WORD64 &&
               heapHead == HEAP_BASE && blocks != []
      modifies `headers, `blocks
      ensures blocks == Coalesce(old(blocks)) && blocks != [] && Chain(headers, blocks)
      ensures Live(blocks) == Live(old(blocks)) && SafeWrites(headers, old(headers), Live(blocks))
    {
      hide Tiles, Live, MissesPayloads, SafeWrites, Chain, Coalesce;
      ghost var live := Live(blocks);
      NoWrites(headers, live);
      var cur := heapHead;
      ghost var k: nat := 0;
      CoalesceEnds(blocks);
      MarkHead(blocks, HEAP_BASE, heapEnd);
      ChainStep(headers, blocks, HEAP_BASE, heapEnd, k);
      while cur != 0 && headers[cur].next != 0
        invariant Tiles(blocks, HEAP_BASE, heapEnd) && Chain(headers, blocks)
        invariant k < |blocks| && cur == blocks[k].addr && cur in headers && cur >= HEAP_BASE
        invariant headers[cur].next == 0 <==> k + 1 == |blocks|
        invariant blocks[..k] + Coalesce(blocks[k..]) == Coalesce(old(blocks))
        invariant Live(blocks) == live && SafeWrites(headers, old(headers), live)
        decreases |blocks| - k
      {
        ChainStep(headers, blocks, HEAP_BASE, heapEnd, k);
        var next := headers[cur].next;
        if headers[cur].free && headers[next].free {
          ghost var headers1 := headers;
          CoalesceMerge(blocks, k);
          ChainMerge(headers, blocks, HEAP_BASE, heapEnd, k);
          MergedTiles(blocks, HEAP_BASE, heapEnd, k);
          var size := headers[cur].size + HEADER + headers[next].size;
          headers := headers[cur := headers[cur].(size := size, next := headers[next].next)];
          blocks := Merged(blocks, k);
          SafeWritesTwice(headers, headers1, old(headers), live);
        } else {
          CoalesceSkip(blocks, k);
          cur := next;
          k := k + 1;
        }
        ChainStep(headers, blocks, HEAP_BASE, heapEnd, k);
      }
      CoalesceEnds(blocks);
    }

    /** The heap stays below its limit, which no code checks: it has fewer pages than the allocator. */
    lemma BelowLimit()
      requires Valid()
      ensures heapEnd - HEAP_BASE <= vmm.pmm.pageCount * PAGE_SIZE <= TOP_LIMIT < HEAP_LIMIT
    {
      hide Vmm.Manager.Valid, Vmm.Manager.View, HeapWalk, Chain, Canonical, Vmm.PagesHeld;
      SpaceBound(frames);
    }

    /** Every byte of the heap is mapped to a byte of a held page that is neither free nor a table. */
    lemma Backed(v: u64)
      requires Valid() && HEAP_BASE <= v < heapEnd
      ensures var k := (v - HEAP_BASE) / PAGE_SIZE;
              k < |frames| && Translate(vmm.View(v), v) == Some(frames[k] + v % PAGE_SIZE) &&
              frames[k] % PAGE_SIZE == 0 && frames[k] / PAGE_SIZE !in vmm.pmm.Free() &&
              frames[k] !in vmm.tab.Values
    {
      hide Vmm.Manager.View, Heap.Space, Chain, Canonical;
      SpaceBacked(frames, v);
    }

    lemma SpaceBacked(held: seq<u64>, v: u64)
      requires Space(held) && HEAP_BASE <= v < HEAP_BASE + |held| * PAGE_SIZE
      ensures var k := (v - HEAP_BASE) / PAGE_SIZE;
              k < |held| && Translate(vmm.View(v), v) == Some(held[k] + v % PAGE_SIZE) &&
              held[k] % PAGE_SIZE == 0 && held[k] / PAGE_SIZE !in vmm.pmm.Free() &&
              held[k] !in vmm.tab.Values
    {
      hide Vmm.Manager.Valid, Vmm.Manager.View, Vmm.Manager.InPlace, Chain, Canonical, PageEntry;
      SpaceBound(held);
      assert HeapWalk(vmm.View(v), v, held);
      AlignedEntry(held[(v - HEAP_BASE) / PAGE_SIZE]);
    }

    /** Of a torn heap, the last page is not mapped and everything before it is. */
    lemma TornExactly(v: u64)
      requires Torn() && HEAP_BASE <= v < heapEnd
      ensures Translate(vmm.View(v), v) == None <==> heapEnd - PAGE_SIZE <= v
    {
      hide Vmm.Manager.View, Heap.Space, Chain, Canonical, Lookup;
      if v < heapEnd - PAGE_SIZE {
        SpaceBacked(frames, v);
      } else {
        SamePageWalk(heapEnd - PAGE_SIZE, v);
      }
    }

    lemma SamePageWalk(u: u64, v: u64)
      requires u % PAGE_SIZE == 0 && u <= v < u + PAGE_SIZE
      ensures vmm.View(u) == vmm.View(v)
    {
      hide WalkFrom;
      assert u / 0x1000 == v / 0x1000;
      PathsSplitPages(u, v);
    }

    /** Distinct bytes of the heap are distinct bytes of memory. */
    lemma BytesApart(u: u64, v: u64)
      requires Valid() && HEAP_BASE <= u < v < heapEnd
      ensures Translate(vmm.View(u), u) != Translate(vmm.View(v), v)
    {
      hide Vmm.Manager.Valid, Vmm.Manager.View, Vmm.Manager.InPlace, Chain, Canonical, PageEntry, HeapWalk, Translate;
      Backed(u);
      Backed(v);
      var j, k := (u - HEAP_BASE) / PAGE_SIZE, (v - HEAP_BASE) / PAGE_SIZE;
      OffsetInPage(u - HEAP_BASE);
      OffsetInPage(v - HEAP_BASE);
      assert j < k ==> frames[j] != frames[k];
      BytesOfPages(frames[j], frames[k], u % PAGE_SIZE, v % PAGE_SIZE);
    }

    /** Zeroed memory for count items; a product above sizeMax is refused. */
    method Calloc(count: u64, size: u64, sizeMax: u64) returns (ptr: nat)
      requires Valid() && (0 < count * size <= sizeMax ==> count * size <= MAX_REQUEST)
      modifies `headers, `heapEnd, `blocks, `frames, `payload, vmm, vmm.pmm.bitmap
      ensures SafeWrites(headers, old(headers), Live(old(blocks)))
      ensures count * size == 0 || count * size > sizeMax ==>
                ptr == 0 && Valid() && blocks == old(blocks) && heapEnd == old(heapEnd)
      ensures 0 < count * size <= sizeMax ==>
                var n := RoundUp(count * size);
                (blocks, heapEnd, ptr) == Serve(old(blocks), old(heapEnd), n, old(CanGrow(n) || Tears(n))) &&
                if old(Full(n) && Tears(n)) then Torn() else Valid()
      ensures ptr == 0 ==> payload == old(payload)
      ensures ptr != 0 ==>
                forall a: nat :: payload(a) == if ptr <= a < ptr + count * size then 0 else old(payload)(a)
    {
      hide Vmm.Manager.Valid, Vmm.Manager.View, Vmm.PagesHeld, HeapWalk, Chain, Canonical, SafeWrites, Live, Growable,
           Serve, FirstFit, RoundUp, Heap.CanGrow, Heap.CanStop, Heap.Tears, Heap.LeftAfter, Vmm.Manager.InPlace;
      NoWrites(headers, Live(blocks));
      if count == 0 || size == 0 { return 0; }
      CallocGuardExactly(count, size, sizeMax);
      if count > sizeMax / size { return 0; }
      var total := count * size;
      assert total > 0;
      ptr := Malloc(total);
      if ptr == 0 { return; }
      var was, from := payload, ptr;
      payload := (a: nat) => if from <= a < from + total then 0 else was(a);
    }
  }
}
