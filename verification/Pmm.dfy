/** The physical page allocator: a bitmap, one bit a page, that stands for a set of free pages. */
module Pmm {
  import opened Bits
  import opened Options

  const PAGE_SIZE: nat := 4096
  const USABLE: nat := 0
  const LOW_MEMORY: nat := 0x100000
  const TOP_LIMIT: nat := 0x40000000

  datatype Entry = Entry(base: u64, length: u64, kind: nat)
  datatype InitResult = InitOk | InitNullResponse | InitOutOfSpace

  // ----- what the bitmap means -----

  predicate Locked(bm: seq<byte>, i: nat)
    requires i / 8 < |bm|
  {
    Bit(bm[i / 8], i % 8)
  }

  /** The pages whose bit is clear. */
  function FreeSet(bm: seq<byte>, pageCount: nat): set<nat> {
    set i: nat | i < pageCount && i / 8 < |bm| && !Locked(bm, i)
  }

  /** The bits of the last byte that stand for no page are set. */
  ghost predicate PaddingLocked(bm: seq<byte>, pageCount: nat) {
    forall i: nat :: pageCount <= i && i / 8 < |bm| ==> Locked(bm, i)
  }

  function BytesFor(pageCount: nat): nat {
    pageCount / 8 + (if pageCount % 8 != 0 then 1 else 0)
  }

  /** A page is free if and only if it is below the count and its bit, the lowest for the first page of a byte, is
      clear. */
  lemma FreeBit(bm: seq<byte>, pageCount: nat, i: nat)
    requires i < 8 * |bm|
    ensures i in FreeSet(bm, pageCount) <==> i < pageCount && bm[i / 8] / Pow2(i % 8) % 2 == 0
    ensures PaddingLocked(bm, pageCount) && pageCount <= i ==> bm[i / 8] / Pow2(i % 8) % 2 == 1
  {
    BitExactly(bm[i / 8], i % 8);
  }

  // ----- regions of memory as ranges of pages -----

  /** The pages a region touches: rounded outwards, with the end computed in 64 bits. */
  predicate InRegion(i: nat, base: u64, count: u64) {
    Within(i, base / PAGE_SIZE, Wrap64(base + count + PAGE_SIZE - 1) / PAGE_SIZE)
  }

  lemma RegionExactly(i: nat, base: u64, count: u64)
    ensures InRegion(i, base, count) <==> base / 4096 <= i < (base + count + 4095) % 0x1_0000_0000_0000_0000 / 4096
  {
  }

  predicate Within(i: nat, start: nat, end: nat) {
    start <= i < end
  }

  /** Without overflow those are the pages that meet the bytes of the region (an empty region inside a
      page touches that page). */
  lemma RegionMeets(i: nat, base: u64, count: u64)
    requires base + count + PAGE_SIZE - 1 < WORD64
    ensures InRegion(i, base, count) <==> i * PAGE_SIZE < base + count && base < (i + 1) * PAGE_SIZE
  {
  }

  /** A region takes part of a page it does not own unless both of its ends lie on page boundaries. */
  lemma RegionWithinExactlyIfAligned(base: u64, count: u64)
    requires base + count + PAGE_SIZE - 1 < WORD64
    ensures (forall i: nat :: InRegion(i, base, count) ==> base <= i * PAGE_SIZE && (i + 1) * PAGE_SIZE <= base + count)
       <==> base % PAGE_SIZE == 0 && (base + count) % PAGE_SIZE == 0
  {
    if base % PAGE_SIZE != 0 {
      assert InRegion(base / PAGE_SIZE, base, count);
    } else if (base + count) % PAGE_SIZE != 0 {
      assert InRegion((base + count) / PAGE_SIZE, base, count);
    }
  }

  /** A region that starts in the middle of page 0x101 takes all of that page. */
  lemma RegionOverreaches()
    ensures InRegion(0x101, 0x10_1800, 0x1000) && 0x101 * PAGE_SIZE < 0x10_1800
  {
  }

  // ----- choosing the place of the bitmap -----

  /** The entries considered for the bitmap; a base of exactly LOW_MEMORY is admitted here. */
  predicate Candidate(e: Entry) {
    e.kind == USABLE && e.length != 0 && e.base >= LOW_MEMORY && Wrap64(e.base + e.length) <= TOP_LIMIT
  }

  /** The test of the code, over the fields of an entry. */
  lemma CandidateExactly(e: Entry)
    ensures Candidate(e) <==>
              e.kind == 0 && e.length != 0 && e.base >= 0x10_0000 &&
              (e.base + e.length) % 0x1_0000_0000_0000_0000 <= 0x4000_0000
  {
  }

  /** The end of a candidate lies below the limit exactly if it is computed without overflow. */
  lemma CandidateEndsBelowLimitExactly(e: Entry)
    requires Candidate(e)
    ensures e.base + e.length <= TOP_LIMIT <==> e.base + e.length < WORD64
  {
  }

  /** An entry whose end wraps round to 4096 is a candidate. */
  lemma WrappedCandidate()
    ensures var e := Entry(WORD64 - 0x1000, 0x2000, USABLE); Candidate(e) && e.base + e.length > TOP_LIMIT
  {
  }

  ghost predicate IsTop(es: seq<Entry>, top: nat) {
    (exists e :: e in es && Candidate(e) && top == Wrap64(e.base + e.length)) &&
    forall e :: e in es && Candidate(e) ==> Wrap64(e.base + e.length) <= top
  }

  ghost predicate IsFirstLongest(es: seq<Entry>, k: nat) {
    k < |es| && Candidate(es[k]) &&
    (forall j :: 0 <= j < |es| && Candidate(es[j]) ==> es[j].length <= es[k].length) &&
    (forall j :: 0 <= j < k && Candidate(es[j]) ==> es[j].length < es[k].length)
  }

  /** The first longest candidate, number k, has room for the bitmap of all pages below the highest top. */
  ghost predicate Fits(es: seq<Entry>, k: nat, top: nat) {
    IsFirstLongest(es, k) && IsTop(es, top) && BytesFor(top / PAGE_SIZE) <= es[k].length
  }

  /** The state of the scan: no candidate yet, or the first longest one and the highest top. */
  ghost predicate Spot(es: seq<Entry>, max: int, maxAddr: nat) {
    if max == -1 then maxAddr == 0 && forall e :: e in es ==> !Candidate(e)
    else 0 <= max && IsFirstLongest(es, max) && IsTop(es, maxAddr) && maxAddr <= TOP_LIMIT
  }

  lemma SpotStep(es: seq<Entry>, i: nat, max: int, maxAddr: nat)
    requires i < |es| && Spot(es[..i], max, maxAddr) && -1 <= max < i
    ensures !Candidate(es[i]) ==> Spot(es[..i + 1], max, maxAddr)
    ensures Candidate(es[i]) ==>
              var top := Wrap64(es[i].base + es[i].length);
              Spot(es[..i + 1], if max == -1 || es[i].length > es[max].length then i else max,
                   if top > maxAddr then top else maxAddr)
  {
    hide Candidate, Wrap64;
    CandidateTop(es[i]);
    assert es[..i + 1] == es[..i] + [es[i]];
    assert es[i] in es[..i + 1];
    assert forall e :: e in es[..i + 1] <==> e in es[..i] || e == es[i];
  }

  lemma SpotMeans(es: seq<Entry>, max: int, maxAddr: nat)
    requires Spot(es, max, maxAddr) && -1 <= max < |es|
    ensures max == -1 ==> forall e :: e in es ==> !Candidate(e)
    ensures max >= 0 ==>
              Candidate(es[max]) &&
              (forall j :: 0 <= j < |es| && Candidate(es[j]) ==> es[j].length <= es[max].length) &&
              (forall j :: 0 <= j < max && Candidate(es[j]) ==> es[j].length < es[max].length) &&
              (exists e :: e in es && Candidate(e) && maxAddr == Wrap64(e.base + e.length)) &&
              forall e :: e in es && Candidate(e) ==> Wrap64(e.base + e.length) <= maxAddr
  {
    hide Candidate, Wrap64;
  }

  lemma SpotStart(es: seq<Entry>)
    ensures Spot(es[..0], -1, 0)
  {
  }

  lemma CandidateTop(e: Entry)
    ensures Candidate(e) ==> Wrap64(e.base + e.length) <= TOP_LIMIT
  {
  }

  lemma NoFit(es: seq<Entry>, maxAddr: nat)
    requires Spot(es, -1, maxAddr)
    ensures forall k: nat, top: nat :: !Fits(es, k, top)
  {
  }

  lemma UniqueFit(es: seq<Entry>, k: nat, top: nat)
    requires IsFirstLongest(es, k) && IsTop(es, top)
    ensures forall k': nat, top': nat :: Fits(es, k', top') ==> k' == k && top' == top
  {
  }

  /** The entries whose pages are freed; a base of exactly LOW_MEMORY is not admitted here. */
  predicate Freed(e: Entry) {
    e.kind == USABLE && e.base > LOW_MEMORY
  }

  ghost predicate InFreed(es: seq<Entry>, i: nat) {
    exists e :: e in es && Freed(e) && InRegion(i, e.base, e.length)
  }

  lemma InFreedStep(es: seq<Entry>, k: nat)
    requires k < |es|
    ensures forall i :: InFreed(es[..k + 1], i) <==>
              InFreed(es[..k], i) || (Freed(es[k]) && InRegion(i, es[k].base, es[k].length))
  {
    assert es[..k + 1] == es[..k] + [es[k]];
  }

  /** A usable entry below 1 GiB of 32 KiB or more always leaves room for the bitmap. */
  lemma RoomForBitmap(es: seq<Entry>, k: nat, top: nat, e: Entry)
    requires IsFirstLongest(es, k) && IsTop(es, top)
    requires e in es && e.kind == 0 && e.base >= 0x10_0000 && e.length >= 0x8000 && e.base + e.length <= 0x4000_0000
    ensures Fits(es, k, top)
  {
    var j :| 0 <= j < |es| && es[j] == e;
    assert Candidate(es[j]);
    assert top <= 0x4000_0000;
  }

  lemma LargeEntryFits(es: seq<Entry>)
    ensures (exists e :: e in es && e.kind == 0 && e.base >= 0x10_0000 && e.length >= 0x8000 &&
                         e.base + e.length <= 0x4000_0000) ==>
              exists k: nat, top: nat :: Fits(es, k, top)
  {
    hide IsFirstLongest, IsTop, Fits;
    if e :| e in es && e.kind == 0 && e.base >= 0x10_0000 && e.length >= 0x8000 && e.base + e.length <= 0x4000_0000 {
      assert Candidate(e);
      var max, maxAddr := BestSpot(es);
      RoomForBitmap(es, max, maxAddr, e);
    }
  }

  /** There is a spot in every memory map with a candidate. */
  lemma {:induction false} BestSpot(es: seq<Entry>) returns (max: int, maxAddr: nat)
    ensures -1 <= max < |es| && Spot(es, max, maxAddr)
  {
    if es == [] {
      max, maxAddr := -1, 0;
    } else {
      var n := |es| - 1;
      max, maxAddr := BestSpot(es[..n]);
      SpotStep(es, n, max, maxAddr);
      assert es[..n + 1] == es;
      if Candidate(es[n]) {
        var top := Wrap64(es[n].base + es[n].length);
        if top > maxAddr { maxAddr := top; }
        if max == -1 || es[n].length > es[..n][max].length { max := n; }
      }
    }
  }

  /** The place of the bitmap and the number of pages, over the fields of the entries. */
  lemma FitsOverFields(es: seq<Entry>, k: nat, top: nat)
    requires Fits(es, k, top)
    ensures es[k].kind == 0 && es[k].base >= 0x10_0000 && (top / 4096 + 7) / 8 <= es[k].length
    ensures forall e ::
              e in es && e.kind == 0 && e.length > 0 && e.base >= 0x10_0000 && e.base + e.length <= 0x4000_0000
              ==> e.base + e.length <= top && e.length <= es[k].length
    ensures exists e ::
              e in es && e.kind == 0 && e.base >= 0x10_0000 && top == (e.base + e.length) % 0x1_0000_0000_0000_0000
  {
    var c :| c in es && Candidate(c) && top == Wrap64(c.base + c.length);
    forall e | e in es && e.kind == 0 && e.length > 0 && e.base >= 0x10_0000 && e.base + e.length <= 0x4000_0000
      ensures e.base + e.length <= top && e.length <= es[k].length
    {
      var j :| 0 <= j < |es| && es[j] == e;
      assert Candidate(es[j]);
    }
  }

  /** The pages that the usable entries free, over their fields. */
  lemma FreedOverFields(es: seq<Entry>, i: nat)
    ensures InFreed(es, i) <==>
              exists e :: e in es && e.kind == 0 && e.base > 0x10_0000 &&
                          e.base / 4096 <= i < (e.base + e.length + 4095) % 0x1_0000_0000_0000_0000 / 4096
  {
    if e :| e in es && e.kind == 0 && e.base > 0x10_0000 &&
            e.base / 4096 <= i < (e.base + e.length + 4095) % 0x1_0000_0000_0000_0000 / 4096 {
      assert e in es && Freed(e) && InRegion(i, e.base, e.length);
    }
  }

  ghost predicate IsLeast(p: nat, s: set<nat>) {
    p in s && forall q :: q in s ==> p <= q
  }

  // ----- bit updates -----

  lemma SetBitLocks(b: byte, k: nat)
    requires k < 8
    ensures Or(b, Pow2(k)) < 256
    ensures forall j: nat :: Bit(Or(b, Pow2(k)), j) <==> Bit(b, j) || j == k
  {
    Powers();
    Pow2Below(k);
    OrBound(b, Pow2(k), 8);
    forall j: nat ensures Bit(Or(b, Pow2(k)), j) <==> Bit(b, j) || j == k {
      OrBit(b, Pow2(k), j);
      PowBit(k, j);
    }
  }

  lemma ClearBitFrees(b: byte, k: nat)
    requires k < 8
    ensures Pow2(k) < 256 && And(b, 255 - Pow2(k)) < 256
    ensures forall j: nat :: j < 8 ==> (Bit(And(b, 255 - Pow2(k)), j) <==> Bit(b, j) && j != k)
  {
    Powers();
    Pow2Below(k);
    AndBound(b, 255 - Pow2(k));
    forall j: nat | j < 8 ensures Bit(And(b, 255 - Pow2(k)), j) <==> Bit(b, j) && j != k {
      AndBit(b, 255 - Pow2(k), j);
      ComplementBit(Pow2(k), 8, j);
      PowBit(k, j);
    }
  }

  lemma {:induction false} Pow2Below(k: nat)
    requires k < 8
    ensures Pow2(k) < 256
    decreases 8 - k
  {
    if k < 7 { Pow2Below(k + 1); } else { Powers(); }
  }

  lemma FullByte(j: nat)
    requires j < 8
    ensures Bit(255, j)
  {
    ComplementBit(0, 8, j);
    ZeroBit(j);
    Powers();
  }

  /** The first page whose bit is clear is the least free one. */
  lemma FirstClear(bm: seq<byte>, pageCount: nat, idx: nat)
    requires pageCount <= 8 * |bm| && idx <= 8 * |bm|
    requires forall p: nat :: p < idx ==> Locked(bm, p)
    ensures idx < pageCount && !Locked(bm, idx) ==> IsLeast(idx, FreeSet(bm, pageCount))
    ensures idx >= pageCount ==> FreeSet(bm, pageCount) == {}
  {
  }

  lemma AllFull(bm: seq<byte>, pageCount: nat)
    requires forall k :: 0 <= k < |bm| ==> bm[k] == 255
    ensures PaddingLocked(bm, pageCount) && FreeSet(bm, pageCount) == {}
  {
    forall i: nat | i / 8 < |bm| ensures Locked(bm, i) { FullByte(i % 8); }
  }

  lemma FirstPage(i: nat)
    ensures InRegion(i, 0, PAGE_SIZE) <==> i == 0
  {
  }

  class Allocator {
    var bitmap: array<byte>
    var bitmapBase: nat
    var bitmapSize: nat
    var pageCount: nat

    constructor ()
      ensures fresh(this) && fresh(bitmap) && pageCount == 0 && bitmapSize == 0
    {
      bitmap := new byte[0];
      bitmapBase, bitmapSize, pageCount := 0, 0, 0;
    }

    ghost predicate Valid()
      reads this, bitmap
    {
      bitmap.Length == bitmapSize == BytesFor(pageCount) &&
      pageCount * PAGE_SIZE <= TOP_LIMIT &&
      PaddingLocked(bitmap[..], pageCount)
    }

    ghost function Free(): set<nat>
      reads this, bitmap
    {
      FreeSet(bitmap[..], pageCount)
    }

    /** The free pages are those of the usable entries above low memory, without page 0 and the bitmap's own. */
    ghost predicate FreeFrom(es: seq<Entry>)
      reads this, bitmap
    {
      bitmapBase < WORD64 && bitmapSize < WORD64 &&
      forall i: nat :: i in Free() <==> 0 < i < pageCount && InFreed(es, i) && !InRegion(i, bitmapBase, bitmapSize)
    }

    /** bitmap[i / 8] |= 1 << (i % 8) */
    method SetBit(i: nat)
      requires Valid() && i < pageCount
      modifies bitmap
      ensures Valid() && Free() == old(Free()) - {i}
    {
      SetBitLocks(bitmap[i / 8], i % 8);
      bitmap[i / 8] := Or(bitmap[i / 8], Pow2(i % 8));
      assert forall p: nat :: p / 8 < bitmapSize ==> (Locked(bitmap[..], p) <==> old(Locked(bitmap[..], p)) || p == i);
    }

    /** bitmap[i / 8] &= ~(1 << (i % 8)) */
    method ClearBit(i: nat)
      requires Valid() && i < pageCount
      modifies bitmap
      ensures Valid() && Free() == old(Free()) + {i}
    {
      ClearBitFrees(bitmap[i / 8], i % 8);
      bitmap[i / 8] := And(bitmap[i / 8], 255 - Pow2(i % 8));
      assert forall p: nat :: p / 8 < bitmapSize ==> (Locked(bitmap[..], p) <==> old(Locked(bitmap[..], p)) && p != i);
    }

    method LockRegion(base: u64, count: u64)
      requires Valid()
      modifies bitmap
      ensures Valid()
      ensures Free() == set i | i in old(Free()) && !InRegion(i, base, count)
    {
      var i, end := base / PAGE_SIZE, Wrap64(base + count + PAGE_SIZE - 1) / PAGE_SIZE;
      while i < end
        invariant base / PAGE_SIZE <= i && Valid()
        invariant i <= end || i == base / PAGE_SIZE
        invariant Free() == set p | p in old(Free()) && !Within(p, base / PAGE_SIZE, i)
      {
        if i < pageCount {
          SetBit(i);
        }
        i := i + 1;
      }
    }

    method FreeRegion(base: u64, count: u64)
      requires Valid()
      modifies bitmap
      ensures Valid()
      ensures Free() == old(Free()) + set i: nat | i < pageCount && InRegion(i, base, count)
    {
      var i, end := base / PAGE_SIZE, Wrap64(base + count + PAGE_SIZE - 1) / PAGE_SIZE;
      while i < end
        invariant base / PAGE_SIZE <= i && Valid()
        invariant i <= end || i == base / PAGE_SIZE
        invariant Free() == old(Free()) + set p: nat | p < pageCount && Within(p, base / PAGE_SIZE, i)
      {
        if i < pageCount {
          ClearBit(i);
        }
        i := i + 1;
      }
    }

    /** The address of the least free page, which is no longer free; 0 when there is none. */
    method AllocPage() returns (page: nat)
      requires Valid()
      modifies bitmap
      ensures Valid()
      ensures old(Free()) == {} ==> page == 0 && Free() == {}
      ensures old(Free()) != {} ==>
                page % PAGE_SIZE == 0 && page / PAGE_SIZE < pageCount && IsLeast(page / PAGE_SIZE, old(Free())) &&
                Free() == old(Free()) - {page / PAGE_SIZE}
    {
      hide FreeSet, IsLeast, PaddingLocked;
      var i := 0;
      while i < bitmapSize
        invariant i <= bitmapSize && bitmap[..] == old(bitmap[..])
        invariant forall p: nat :: p < 8 * i ==> Locked(bitmap[..], p)
      {
        if bitmap[i] == 255 {
          forall p: nat | 8 * i <= p < 8 * i + 8 ensures Locked(bitmap[..], p) { FullByte(p % 8); }
        } else {
          var bit := 0;
          while bit < 8
            invariant bit <= 8 && bitmap[..] == old(bitmap[..])
            invariant forall p: nat :: p < 8 * i + bit ==> Locked(bitmap[..], p)
          {
            AndPow(bitmap[i], bit);
            if And(bitmap[i], Pow2(bit)) == 0 {
              var idx := i * 8 + bit;
              assert idx / 8 == i && idx % 8 == bit;
              FirstClear(bitmap[..], pageCount, idx);
              if idx >= pageCount {
                return 0;
              }
              SetBit(idx);
              return idx * PAGE_SIZE;
            }
            bit := bit + 1;
          }
        }
        i := i + 1;
      }
      FirstClear(bitmap[..], pageCount, 8 * bitmapSize);
      return 0;
    }

    method FreePage(page: nat)
      requires Valid()
      modifies bitmap
      ensures Valid()
      ensures Free() == old(Free()) + if page == 0 || page / PAGE_SIZE >= pageCount then {} else {page / PAGE_SIZE}
    {
      if page == 0 { return; }
      var idx := page / PAGE_SIZE;
      if idx >= pageCount { return; }
      ClearBit(idx);
    }

    /** The scan for the bitmap's place. */
    static method FindSpot(es: seq<Entry>) returns (max: int, maxAddr: nat)
      ensures -1 <= max < |es| && Spot(es, max, maxAddr)
      ensures max == -1 ==> forall e :: e in es ==> !Candidate(e)
      ensures max >= 0 ==>
                Candidate(es[max]) &&
                (forall j :: 0 <= j < |es| && Candidate(es[j]) ==> es[j].length <= es[max].length) &&
                (forall j :: 0 <= j < max && Candidate(es[j]) ==> es[j].length < es[max].length) &&
                (exists e :: e in es && Candidate(e) && maxAddr == Wrap64(e.base + e.length)) &&
                forall e :: e in es && Candidate(e) ==> Wrap64(e.base + e.length) <= maxAddr
    {
      hide Spot, Candidate;
      max, maxAddr := -1, 0;
      SpotStart(es);
      var i: nat := 0;
      while i < |es|
        invariant i <= |es| && -1 <= max < i && Spot(es[..i], max, maxAddr)
      {
        var entry := es[i];
        SpotStep(es, i, max, maxAddr);
        CandidateExactly(entry);
        if entry.kind == USABLE && entry.length != 0 && entry.base >= LOW_MEMORY &&
           Wrap64(entry.base + entry.length) <= TOP_LIMIT {
          var top := Wrap64(entry.base + entry.length);
          if top > maxAddr { maxAddr := top; }
          if max == -1 || entry.length > es[max].length { max := i; }
        }
        i := i + 1;
      }
      assert es[..|es|] == es;
      SpotMeans(es, max, maxAddr);
    }

    /** Frees the pages of every usable entry above low memory. */
    method FreeUsable(es: seq<Entry>)
      requires Valid() && Free() == {}
      modifies bitmap
      ensures Valid() && forall p: nat :: p in Free() <==> p < pageCount && InFreed(es, p)
    {
      var i := 0;
      while i < |es|
        invariant 0 <= i <= |es| && Valid()
        invariant forall p: nat :: p in Free() <==> p < pageCount && InFreed(es[..i], p)
      {
        InFreedStep(es, i);
        if es[i].kind == USABLE && es[i].base > LOW_MEMORY {
          FreeRegion(es[i].base, es[i].length);
        }
        i := i + 1;
      }
      assert es[..|es|] == es;
    }

    lemma FreeOverFields(es: seq<Entry>)
      requires FreeFrom(es)
      ensures forall i :: i in Free() <==>
                0 < i < pageCount &&
                (exists e :: e in es && e.kind == 0 && e.base > 0x10_0000 &&
                             e.base / 4096 <= i < (e.base + e.length + 4095) % 0x1_0000_0000_0000_0000 / 4096) &&
                !(bitmapBase / 4096 <= i < (bitmapBase + bitmapSize + 4095) % 0x1_0000_0000_0000_0000 / 4096)
    {
      hide FreeSet, InFreed, InRegion;
      forall i: nat ensures i in Free() <==>
        0 < i < pageCount &&
        (exists e :: e in es && e.kind == 0 && e.base > 0x10_0000 &&
                     e.base / 4096 <= i < (e.base + e.length + 4095) % 0x1_0000_0000_0000_0000 / 4096) &&
        !(bitmapBase / 4096 <= i < (bitmapBase + bitmapSize + 4095) % 0x1_0000_0000_0000_0000 / 4096)
      {
        FreedOverFields(es, i);
        RegionExactly(i, bitmapBase, bitmapSize);
      }
    }

    /** Fills the bitmap once its place is known. */
    method FillBitmap(es: seq<Entry>)
      requires bitmapSize == BytesFor(pageCount) && pageCount * PAGE_SIZE <= TOP_LIMIT && bitmapBase < WORD64
      modifies `bitmap
      ensures Valid() && fresh(bitmap) && FreeFrom(es)
    {
      hide FreeSet, PaddingLocked, InFreed, InRegion;
      forall i: nat ensures InRegion(i, 0, PAGE_SIZE) <==> i == 0 { FirstPage(i); }
      bitmap := new byte[bitmapSize](_ => 255);
      AllFull(bitmap[..], pageCount);
      FreeUsable(es);
      LockRegion(0, PAGE_SIZE);
      LockRegion(bitmapBase, bitmapSize);
    }

    /** The work of Init: it takes the memory map (absent when the boot loader gave none), puts the bitmap at the start
        of the first longest candidate, and frees the pages of the usable entries except page 0 and the bitmap's own. */
    method Setup(memmap: Option<seq<Entry>>) returns (r: InitResult)
      modifies this
      ensures r == InitNullResponse <==> memmap == None
      ensures r == InitOutOfSpace <==> memmap.Some? && !exists k: nat, top: nat :: Fits(memmap.value, k, top)
      ensures r == InitOk ==>
                Valid() && fresh(bitmap) &&
                (exists k: nat, top: nat :: Fits(memmap.value, k, top) &&
                                            bitmapBase == memmap.value[k].base && pageCount == top / PAGE_SIZE) &&
                FreeFrom(memmap.value)
    {
      hide FreeSet, PaddingLocked, InFreed, InRegion, Candidate, IsFirstLongest, IsTop, Allocator.FreeFrom;
      if memmap == None { return InitNullResponse; }
      var es := memmap.value;
      var max, maxAddr := FindSpot(es);
      if max == -1 {
        NoFit(es, maxAddr);
        return InitOutOfSpace;
      }
      pageCount := maxAddr / PAGE_SIZE;
      bitmapSize := pageCount / 8;
      if pageCount % 8 != 0 { bitmapSize := bitmapSize + 1; }
      if es[max].length < bitmapSize {
        UniqueFit(es, max, maxAddr);
        return InitOutOfSpace;
      }
      assert Fits(es, max, maxAddr);
      bitmapBase := es[max].base;
      FillBitmap(es);
      return InitOk;
    }

    lemma PlaceOverFields(es: seq<Entry>)
      requires bitmapSize == BytesFor(pageCount)
      requires exists k: nat, top: nat :: Fits(es, k, top) && bitmapBase == es[k].base && pageCount == top / PAGE_SIZE
      ensures (exists e :: e in es && e.kind == 0 && e.base >= 0x10_0000 && bitmapBase == e.base &&
                           bitmapSize <= e.length) &&
              bitmapSize == (pageCount + 7) / 8 &&
              (exists e :: e in es && e.kind == 0 && e.base >= 0x10_0000 &&
                           pageCount == (e.base + e.length) % 0x1_0000_0000_0000_0000 / 4096) &&
              (forall e ::
                 e in es && e.kind == 0 && e.length > 0 && e.base >= 0x10_0000 && e.base + e.length <= 0x4000_0000
                 ==> (e.base + e.length) / 4096 <= pageCount)
    {
      var k: nat, top: nat :| Fits(es, k, top) && bitmapBase == es[k].base && pageCount == top / PAGE_SIZE;
      FitsOverFields(es, k, top);
      assert es[k] in es;
    }

    /** The page allocator from a memory map, also over the fields of the entries: a usable entry of 32 KiB or more
        between 1 MiB and 1 GiB is enough for it. */
    method Init(memmap: Option<seq<Entry>>) returns (r: InitResult)
      modifies this
      ensures r == InitNullResponse <==> memmap == None
      ensures r == InitOutOfSpace <==> memmap.Some? && !exists k: nat, top: nat :: Fits(memmap.value, k, top)
      ensures r == InitOk ==>
                Valid() && fresh(bitmap) &&
                (exists k: nat, top: nat :: Fits(memmap.value, k, top) &&
                                            bitmapBase == memmap.value[k].base && pageCount == top / PAGE_SIZE) &&
                FreeFrom(memmap.value)
      ensures memmap.Some? &&
              (exists e :: e in memmap.value && e.kind == 0 && e.base >= 0x10_0000 && e.length >= 0x8000 &&
                           e.base + e.length <= 0x4000_0000) ==>
                r == InitOk
      ensures r == InitOk ==>
                (exists e :: e in memmap.value && e.kind == 0 && e.base >= 0x10_0000 && bitmapBase == e.base &&
                             bitmapSize <= e.length) &&
                bitmapSize == (pageCount + 7) / 8 &&
                (exists e :: e in memmap.value && e.kind == 0 && e.base >= 0x10_0000 &&
                             pageCount == (e.base + e.length) % 0x1_0000_0000_0000_0000 / 4096) &&
                (forall e ::
                   e in memmap.value && e.kind == 0 && e.length > 0 && e.base >= 0x10_0000 &&
                   e.base + e.length <= 0x4000_0000
                   ==> (e.base + e.length) / 4096 <= pageCount)
      ensures r == InitOk ==>
                forall i :: i in Free() <==>
                  0 < i < pageCount &&
                  (exists e :: e in memmap.value && e.kind == 0 && e.base > 0x10_0000 &&
                               e.base / 4096 <= i < (e.base + e.length + 4095) % 0x1_0000_0000_0000_0000 / 4096) &&
                  !(bitmapBase / 4096 <= i < (bitmapBase + bitmapSize + 4095) % 0x1_0000_0000_0000_0000 / 4096)
    {
      hide FreeSet, PaddingLocked, InFreed, InRegion, Candidate, IsFirstLongest, IsTop, Fits, Allocator.FreeFrom;
      r := Setup(memmap);
      if memmap.Some? { LargeEntryFits(memmap.value); }
      if r == InitOk {
        PlaceOverFields(memmap.value);
        FreeOverFields(memmap.value);
      }
    }
  }
}
