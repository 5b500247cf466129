/** The block list of the heap as a value: what one pass of the allocator does to it, and why there is only one
    canonical list for a given set of live blocks. */
module Blocks {
  import opened Pmm

  const HEADER: nat := 24

  datatype Block = Block(addr: nat, size: nat, free: bool) {
    /** The first byte after the payload. */
    function End(): nat { addr + HEADER + size }
    function Payload(): nat { addr + HEADER }
  }

  /** Headers and payloads cover lo..hi without a gap; sizes are positive multiples of 8. */
  ghost predicate Tiles(bs: seq<Block>, lo: nat, hi: nat) {
    if bs == [] then lo == hi
    else bs[0].addr == lo && bs[0].size > 0 && bs[0].size % 8 == 0 && Tiles(bs[1..], bs[0].End(), hi)
  }

  ghost predicate NoFreePair(bs: seq<Block>) {
    forall i :: 0 <= i < |bs| - 1 ==> !bs[i].free || !bs[i + 1].free
  }

  ghost predicate Canonical(bs: seq<Block>, lo: nat, hi: nat) {
    Tiles(bs, lo, hi) && NoFreePair(bs)
  }

  ghost function Live(bs: seq<Block>): set<Block> {
    set b | b in bs && !b.free
  }

  lemma LiveCons(b: Block, bs: seq<Block>)
    ensures Live([b] + bs) == Live(bs) + if b.free then {} else {b}
  {
    assert forall x :: x in [b] + bs <==> x == b || x in bs;
  }

  // ----- tilings -----

  lemma {:induction false} TilesBounds(bs: seq<Block>, lo: nat, hi: nat)
    requires Tiles(bs, lo, hi)
    ensures lo <= hi && (bs != [] ==> lo + HEADER < hi)
    ensures forall b :: b in bs ==> lo <= b.addr && b.End() <= hi && b.size > 0 && b.size % 8 == 0
    ensures lo % 8 == 0 ==> hi % 8 == 0 && forall b :: b in bs ==> b.addr % 8 == 0
  {
    if bs != [] {
      TilesBounds(bs[1..], bs[0].End(), hi);
      assert forall b :: b in bs ==> b == bs[0] || b in bs[1..];
    }
  }

  lemma {:induction false} TilesSplit(bs: seq<Block>, lo: nat, hi: nat, k: nat)
    requires Tiles(bs, lo, hi) && k <= |bs|
    ensures var mid := if k < |bs| then bs[k].addr else hi;
            Tiles(bs[..k], lo, mid) && Tiles(bs[k..], mid, hi)
  {
    if k > 0 {
      TilesSplit(bs[1..], bs[0].End(), hi, k - 1);
      assert bs[1..][..k - 1] == bs[..k][1..] && bs[1..][k - 1..] == bs[k..];
    } else {
      assert bs[0..] == bs;
    }
  }

  lemma {:induction false} TilesJoin(a: seq<Block>, b: seq<Block>, lo: nat, mid: nat, hi: nat)
    requires Tiles(a, lo, mid) && Tiles(b, mid, hi)
    ensures Tiles(a + b, lo, hi)
  {
    if a == [] {
      assert a + b == b;
    } else {
      TilesJoin(a[1..], b, a[0].End(), mid, hi);
      assert (a + b)[1..] == a[1..] + b;
    }
  }

  /** The start of block k, or the end of all blocks. */
  function StartOf(bs: seq<Block>, hi: nat, k: nat): nat { if k < |bs| then bs[k].addr else hi }

  /** Blocks i to j may give way to any others that cover the same range. */
  lemma TilesReplace(bs: seq<Block>, lo: nat, hi: nat, i: nat, j: nat, mid: seq<Block>)
    requires Tiles(bs, lo, hi) && i <= j <= |bs| && Tiles(mid, StartOf(bs, hi, i), StartOf(bs, hi, j))
    ensures Tiles(bs[..i] + mid + bs[j..], lo, hi)
  {
    hide Tiles;
    TilesSplit(bs, lo, hi, i);
    TilesSplit(bs, lo, hi, j);
    TilesJoin(bs[..i], mid, lo, StartOf(bs, hi, i), StartOf(bs, hi, j));
    TilesJoin(bs[..i] + mid, bs[j..], lo, StartOf(bs, hi, j), hi);
  }

  lemma TilesOne(b: Block)
    requires b.size > 0 && b.size % 8 == 0
    ensures Tiles([b], b.addr, b.End())
  {
    assert [b][1..] == [];
  }

  lemma TilesTwo(a: Block, b: Block)
    requires a.size > 0 && a.size % 8 == 0 && b.size > 0 && b.size % 8 == 0 && b.addr == a.End()
    ensures Tiles([a, b], a.addr, b.End())
  {
    TilesOne(b);
    assert [a, b][1..] == [b];
  }

  /** A block has a positive multiple of 8 bytes and ends where the next one starts. */
  lemma BlockEnds(bs: seq<Block>, lo: nat, hi: nat, i: nat)
    requires Tiles(bs, lo, hi) && i < |bs|
    ensures bs[i].size > 0 && bs[i].size % 8 == 0 && bs[i].End() == StartOf(bs, hi, i + 1) <= hi
    ensures bs[i].End() == bs[i].addr + HEADER + bs[i].size
  {
    TilesSplit(bs, lo, hi, i);
    TilesBounds(bs, lo, hi);
    assert bs[i] in bs && bs[i..][1..] == bs[i + 1..];
  }

  /** Blocks lie in list order: each one ends where or before every later one begins. */
  lemma TilesApart(bs: seq<Block>, lo: nat, hi: nat, i: nat, j: nat)
    requires Tiles(bs, lo, hi) && i < j < |bs|
    ensures bs[i].End() <= bs[j].addr
    ensures j == i + 1 ==> bs[i].End() == bs[j].addr
  {
    TilesSplit(bs, lo, hi, i);
    var rest := bs[i..];
    TilesBounds(rest[1..], rest[0].End(), hi);
    assert bs[j] == rest[1..][j - i - 1];
  }

  /** No two blocks share an address, so a live block is identified by its address. */
  lemma TilesInjective(bs: seq<Block>, lo: nat, hi: nat)
    requires Tiles(bs, lo, hi)
    ensures forall i, j :: 0 <= i < |bs| && 0 <= j < |bs| && bs[i].addr == bs[j].addr ==> i == j
  {
    forall i, j | 0 <= i < j < |bs| ensures bs[i].addr != bs[j].addr {
      TilesApart(bs, lo, hi, i, j);
    }
  }

  lemma OthersElsewhere(bs: seq<Block>, lo: nat, hi: nat, i: nat)
    requires Tiles(bs, lo, hi) && i < |bs|
    ensures forall k :: 0 <= k < |bs| && k != i ==> bs[k].addr != bs[i].addr
  {
    TilesInjective(bs, lo, hi);
  }

  lemma BlockBounds(bs: seq<Block>, lo: nat, hi: nat, i: nat)
    requires Tiles(bs, lo, hi) && i < |bs|
    ensures bs[i] in bs && lo <= bs[i].addr && bs[i].End() <= hi
  {
    TilesBounds(bs, lo, hi);
    assert bs[i] in bs;
  }

  lemma LastEnds(bs: seq<Block>, lo: nat, hi: nat)
    requires Tiles(bs, lo, hi) && bs != []
    ensures bs[|bs| - 1].End() == hi && forall k :: 0 <= k < |bs| ==> bs[k].addr < hi
  {
    TilesBounds(bs, lo, hi);
    TilesSplit(bs, lo, hi, |bs| - 1);
    var last := bs[|bs| - 1];
    assert bs[|bs| - 1..] == [last] && [last][1..] == [];
    forall k | 0 <= k < |bs| ensures bs[k].addr < hi { assert bs[k] in bs && bs[k].End() <= hi; }
  }

  // ----- the canonical list is unique -----

  /** The live blocks and the bounds determine the whole list, free blocks included. */
  lemma {:induction false} CanonicalUnique(a: seq<Block>, b: seq<Block>, lo: nat, hi: nat)
    requires Canonical(a, lo, hi) && Canonical(b, lo, hi) && Live(a) == Live(b)
    ensures a == b
  {
    TilesBounds(a, lo, hi);
    TilesBounds(b, lo, hi);
    if a != [] && b != [] {
      SameHead(a, b, lo, hi);
      TailLive(a, lo, hi);
      TailLive(b, lo, hi);
      CanonicalUnique(a[1..], b[1..], a[0].End(), hi);
      assert a == [a[0]] + a[1..] && b == [b[0]] + b[1..];
    }
  }

  lemma TailLive(bs: seq<Block>, lo: nat, hi: nat)
    requires Canonical(bs, lo, hi) && bs != []
    ensures Live(bs[1..]) == Live(bs) - {bs[0]} && Canonical(bs[1..], bs[0].End(), hi)
  {
    TilesBounds(bs[1..], bs[0].End(), hi);
    assert forall b :: b in bs <==> b == bs[0] || b in bs[1..];
  }

  lemma SameHead(a: seq<Block>, b: seq<Block>, lo: nat, hi: nat)
    requires Canonical(a, lo, hi) && Canonical(b, lo, hi) && Live(a) == Live(b) && a != [] && b != []
    ensures a[0] == b[0]
  {
    if !a[0].free {
      LiveHead(a, b, lo, hi);
    } else if !b[0].free {
      LiveHead(b, a, lo, hi);
    } else {
      FreeHead(a, b, lo, hi);
      FreeHead(b, a, lo, hi);
    }
  }

  lemma LiveHead(a: seq<Block>, b: seq<Block>, lo: nat, hi: nat)
    requires Tiles(a, lo, hi) && Tiles(b, lo, hi) && Live(a) <= Live(b) && a != [] && b != [] && !a[0].free
    ensures a[0] == b[0]
  {
    assert a[0] in Live(a);
    var k :| 0 <= k < |b| && b[k] == a[0];
    TilesInjective(b, lo, hi);
  }

  /** A free first block is followed by a live block at its end, which a longer free first block leaves no room for. */
  lemma FreeHead(a: seq<Block>, b: seq<Block>, lo: nat, hi: nat)
    requires Canonical(a, lo, hi) && Canonical(b, lo, hi) && Live(a) <= Live(b) && a != [] && b != []
    requires a[0].free && b[0].free
    ensures a[0].size >= b[0].size
  {
    TilesBounds(b, lo, hi);
    assert b[0] in b;
    if |a| == 1 {
      assert a[1..] == [] && Tiles(a[1..], a[0].End(), hi);
    } else {
      assert a[1] in Live(a);
      var k :| 0 <= k < |b| && b[k] == a[1];
      TilesApart(a, lo, hi, 0, 1);
      if k != 0 { TilesApart(b, lo, hi, 0, k); }
    }
  }

  // ----- taking a block -----

  /** The index of the first free block of at least n bytes, or the length of the list. */
  function FirstFit(bs: seq<Block>, n: nat): (i: nat)
    ensures i <= |bs|
    ensures i < |bs| ==> bs[i].free && bs[i].size >= n
    ensures forall j :: 0 <= j < i ==> !(bs[j].free && bs[j].size >= n)
  {
    if bs == [] then 0
    else if bs[0].free && bs[0].size >= n then 0
    else 1 + FirstFit(bs[1..], n)
  }

  /** Block i is taken for n bytes; what is left over becomes a free block when it is worth one. */
  function Place(bs: seq<Block>, i: nat, n: nat): seq<Block>
    requires i < |bs| && bs[i].size >= n
  {
    var b := bs[i];
    if b.size > n + HEADER + 8 then
      bs[..i] + [Block(b.addr, n, false), Block(b.addr + HEADER + n, b.size - n - HEADER, true)] + bs[i + 1..]
    else
      bs[i := b.(free := false)]
  }

  /** Taking a block keeps the list canonical, adds one live block and changes no other; at most 32 bytes more than
      asked for are granted. What is left over is a free block of more than 8 bytes, or goes with the grant. */
  lemma PlaceCanonical(bs: seq<Block>, lo: nat, hi: nat, i: nat, n: nat)
    requires Canonical(bs, lo, hi) && i < |bs| && bs[i].free && bs[i].size >= n > 0 && n % 8 == 0
    ensures var r := Place(bs, i, n);
            Canonical(r, lo, hi) && i < |r| && r[i].addr == bs[i].addr && !r[i].free &&
            n <= r[i].size <= n + 32 && Live(r) == Live(bs) + {r[i]} && r[i] !in Live(bs) &&
            (if bs[i].size > n + 32 then r[i].size == n && i + 1 < |r| && r[i + 1].free && r[i + 1].size > 8
             else |r| == |bs| && r[i].size == bs[i].size)
  {
    hide Live, NoFreePair, Tiles;
    var b, r := bs[i], Place(bs, i, n);
    NotLiveYet(bs, lo, hi, i);
    BlockEnds(bs, lo, hi, i);
    if b.size > n + HEADER + 8 {
      var used, rest := Block(b.addr, n, false), Block(b.addr + HEADER + n, b.size - n - HEADER, true);
      assert used.End() == rest.addr && rest.End() == b.End();
      TilesTwo(used, rest);
      TilesReplace(bs, lo, hi, i, i + 1, [used, rest]);
      PlacedSplit(bs, i, used, rest);
    } else {
      TilesOne(b.(free := false));
      TilesReplace(bs, lo, hi, i, i + 1, [b.(free := false)]);
      assert r == bs[..i] + [b.(free := false)] + bs[i + 1..];
      PlacedWhole(bs, i);
    }
  }

  /** No live block stands where a free one does. */
  lemma NotLiveYet(bs: seq<Block>, lo: nat, hi: nat, i: nat)
    requires Tiles(bs, lo, hi) && i < |bs| && bs[i].free
    ensures forall b :: b in Live(bs) ==> b.addr != bs[i].addr
  {
    OthersElsewhere(bs, lo, hi, i);
  }

  lemma PlacedSplit(bs: seq<Block>, i: nat, used: Block, rest: Block)
    requires NoFreePair(bs) && i < |bs| && bs[i].free && !used.free && rest.free
    ensures var r := bs[..i] + [used, rest] + bs[i + 1..]; NoFreePair(r) && Live(r) == Live(bs) + {used}
  {
    var r := bs[..i] + [used, rest] + bs[i + 1..];
    forall k | 0 <= k < |r| - 1 ensures !r[k].free || !r[k + 1].free {
      if k > i + 1 { assert r[k] == bs[k - 1] && r[k + 1] == bs[k]; }
      if k == i + 1 { assert r[k + 1] == bs[i + 1]; }
    }
    Members(bs, i);
    assert forall b :: b in r <==> b in bs[..i] || b == used || b == rest || b in bs[i + 1..];
  }

  lemma PlacedWhole(bs: seq<Block>, i: nat)
    requires NoFreePair(bs) && i < |bs| && bs[i].free
    ensures var r := bs[i := bs[i].(free := false)]; NoFreePair(r) && Live(r) == Live(bs) + {r[i]}
  {
    var r := bs[i := bs[i].(free := false)];
    Members(bs, i);
    Members(r, i);
    assert r[..i] == bs[..i] && r[i + 1..] == bs[i + 1..];
  }

  lemma Members(bs: seq<Block>, i: nat)
    requires i < |bs|
    ensures forall b :: b in bs <==> b in bs[..i] || b == bs[i] || b in bs[i + 1..]
  {
    assert bs == bs[..i] + [bs[i]] + bs[i + 1..];
  }

  // ----- growing -----

  function PagesFor(n: nat): nat { (n + HEADER + PAGE_SIZE - 1) / PAGE_SIZE }

  /** The pages for n bytes are as few as hold them and a header. */
  lemma PagesHold(n: nat)
    ensures var bytes := PagesFor(n) * PAGE_SIZE;
            bytes - 4096 < n + 24 <= bytes && bytes >= n + HEADER && bytes > HEADER && bytes % 8 == 0
  {
  }

  /** The heap grows by a number of bytes: a free last block takes them in, else they become a new free block. */
  function Extend(bs: seq<Block>, hi: nat, bytes: nat): seq<Block>
    requires bs != [] && bytes >= HEADER
  {
    var last := bs[|bs| - 1];
    if last.free then bs[|bs| - 1 := last.(size := last.size + bytes)]
    else bs + [Block(hi, bytes - HEADER, true)]
  }

  lemma ExtendCanonical(bs: seq<Block>, lo: nat, hi: nat, bytes: nat)
    requires Canonical(bs, lo, hi) && bs != [] && bytes > HEADER && bytes % 8 == 0
    ensures var r := Extend(bs, hi, bytes);
            Canonical(r, lo, hi + bytes) && Live(r) == Live(bs) && |r| > 0 && r[|r| - 1].free
  {
    hide Tiles;
    var k := |bs| - 1;
    var last, r := bs[k], Extend(bs, hi, bytes);
    Members(bs, k);
    BlockEnds(bs, lo, hi, k);
    if last.free {
      var longer := last.(size := last.size + bytes);
      TilesOne(longer);
      assert longer.End() == hi + bytes;
      TilesSplit(bs, lo, hi, k);
      TilesJoin(bs[..k], [longer], lo, last.addr, hi + bytes);
      assert r == bs[..k] + [longer];
      Members(r, k);
      assert r[..k] == bs[..k] && r[k + 1..] == [] == bs[k + 1..];
    } else {
      var more := Block(hi, bytes - HEADER, true);
      TilesOne(more);
      TilesJoin(bs, [more], lo, hi, hi + bytes);
    }
  }

  /** After growing by the pages for n bytes the last block fits n bytes, and it is the first that does. */
  lemma GrownFits(bs: seq<Block>, lo: nat, hi: nat, n: nat)
    requires Canonical(bs, lo, hi) && bs != [] && n % 8 == 0 && FirstFit(bs, n) == |bs|
    ensures var r := Extend(bs, hi, PagesFor(n) * PAGE_SIZE);
            |r| > 0 && r[|r| - 1].free && r[|r| - 1].size >= n && FirstFit(r, n) == |r| - 1
  {
    var bytes := PagesFor(n) * PAGE_SIZE;
    assert bytes >= n + HEADER;
    var r := Extend(bs, hi, bytes);
    var f := FirstFit(r, n);
    assert forall j :: 0 <= j < |r| - 1 ==> r[j] == bs[j];
  }

  /** A request for n bytes: first fit, else growth by the pages for n bytes when there are pages, and the last
      component is the pointer (0 for none). */
  function Serve(bs: seq<Block>, hi: nat, n: nat, grows: bool): (seq<Block>, nat, nat)
    requires bs != []
  {
    var i := FirstFit(bs, n);
    if n == 0 then (bs, hi, 0)
    else if i < |bs| then (Place(bs, i, n), hi, bs[i].Payload())
    else if !grows then (bs, hi, 0)
    else
      var bytes := PagesFor(n) * PAGE_SIZE;
      var g := Extend(bs, hi, bytes);
      var j := FirstFit(g, n);
      if j < |g| then (Place(g, j, n), hi + bytes, g[j].Payload()) else (g, hi + bytes, 0)
  }

  /** Pages for a growth make no difference to a request that a block fits. */
  lemma ServedWithin(bs: seq<Block>, hi: nat, n: nat)
    requires bs != [] && (n == 0 || FirstFit(bs, n) != |bs|)
    ensures Serve(bs, hi, n, true) == Serve(bs, hi, n, false)
  {
  }

  /** The list the request is served from. */
  function Source(bs: seq<Block>, hi: nat, n: nat): (seq<Block>, nat)
    requires bs != []
  {
    if FirstFit(bs, n) < |bs| then (bs, hi) else (Extend(bs, hi, PagesFor(n) * PAGE_SIZE), hi + PagesFor(n) * PAGE_SIZE)
  }

  /** A request that is served takes one free block of a canonical list and leaves one; growth never fails to help. */
  lemma ServeFacts(bs: seq<Block>, lo: nat, hi: nat, n: nat, grows: bool)
    requires Canonical(bs, lo, hi) && bs != [] && n % 8 == 0
    ensures var r := Serve(bs, hi, n, grows);
            Canonical(r.0, lo, r.1) && r.0 != [] && hi <= r.1 &&
            (r.2 == 0 <==> n == 0 || (FirstFit(bs, n) == |bs| && !grows)) && (r.2 == 0 ==> r == (bs, hi, 0)) &&
            (r.2 != 0 ==>
              var (src, hi') := Source(bs, hi, n);
              var i := FirstFit(src, n);
              Canonical(src, lo, hi') && Live(src) == Live(bs) && r == (Place(src, i, n), hi', src[i].Payload()) &&
              Owns(r.0, i, r.2) && n <= r.0[i].size <= n + 32 &&
              Live(r.0) == Live(bs) + {r.0[i]} && r.0[i] !in Live(bs))
  {
    hide Tiles, NoFreePair, Live, Extend, Place, FirstFit, PagesFor;
    if n != 0 && (FirstFit(bs, n) < |bs| || grows) {
      var bytes := PagesFor(n) * PAGE_SIZE;
      PagesHold(n);
      if FirstFit(bs, n) == |bs| {
        ExtendCanonical(bs, lo, hi, bytes);
        GrownFits(bs, lo, hi, n);
      }
      var (src, hi') := Source(bs, hi, n);
      PlaceCanonical(src, lo, hi', FirstFit(src, n), n);
    }
  }

  /** Block i is live and its payload starts at ptr. */
  ghost predicate Owns(bs: seq<Block>, i: nat, ptr: nat) {
    i < |bs| && bs[i].Payload() == ptr && !bs[i].free
  }

  // ----- giving a block back -----

  /** One pass over the list that merges free neighbours. */
  function Coalesce(bs: seq<Block>): (r: seq<Block>)
    ensures bs != [] ==> r != [] && r[0].addr == bs[0].addr && r[0].free == bs[0].free
    decreases |bs|
  {
    if |bs| < 2 then bs
    else if bs[0].free && bs[1].free then Coalesce([bs[0].(size := bs[0].size + HEADER + bs[1].size)] + bs[2..])
    else [bs[0]] + Coalesce(bs[1..])
  }

  lemma {:induction false} CoalesceCanonical(bs: seq<Block>, lo: nat, hi: nat)
    requires Tiles(bs, lo, hi)
    ensures Canonical(Coalesce(bs), lo, hi) && Live(Coalesce(bs)) == Live(bs)
    decreases |bs|
  {
    if |bs| >= 2 {
      assert bs[1..][1..] == bs[2..];
      if bs[0].free && bs[1].free {
        var m := [bs[0].(size := bs[0].size + HEADER + bs[1].size)] + bs[2..];
        assert m[1..] == bs[2..];
        CoalesceCanonical(m, lo, hi);
        LiveCons(m[0], bs[2..]);
        LiveCons(bs[1], bs[2..]);
        LiveCons(bs[0], [bs[1]] + bs[2..]);
        assert bs == [bs[0]] + ([bs[1]] + bs[2..]);
      } else {
        var c := Coalesce(bs[1..]);
        CoalesceCanonical(bs[1..], bs[0].End(), hi);
        assert ([bs[0]] + c)[1..] == c;
        LiveCons(bs[0], c);
        LiveCons(bs[0], bs[1..]);
        assert bs == [bs[0]] + bs[1..];
      }
    }
  }

  /** Block k takes in the block after it. */
  function Merged(bs: seq<Block>, k: nat): seq<Block>
    requires k + 1 < |bs|
  {
    bs[..k] + [bs[k].(size := bs[k].size + HEADER + bs[k + 1].size)] + bs[k + 2..]
  }

  lemma MergedTiles(bs: seq<Block>, lo: nat, hi: nat, k: nat)
    requires Tiles(bs, lo, hi) && k + 1 < |bs|
    ensures Tiles(Merged(bs, k), lo, hi) && bs[k].size + HEADER + bs[k + 1].size <= hi
  {
    hide Tiles;
    BlockEnds(bs, lo, hi, k);
    BlockEnds(bs, lo, hi, k + 1);
    var m := bs[k].(size := bs[k].size + HEADER + bs[k + 1].size);
    assert m.End() == bs[k + 1].End();
    TilesOne(m);
    TilesReplace(bs, lo, hi, k, k + 2, [m]);
  }

  // The pass, seen from block k on: everything before k is done.

  lemma CoalesceMerge(bs: seq<Block>, k: nat)
    requires k + 1 < |bs| && bs[k].free && bs[k + 1].free
    ensures Merged(bs, k)[..k] == bs[..k] && Coalesce(Merged(bs, k)[k..]) == Coalesce(bs[k..])
    ensures Live(Merged(bs, k)) == Live(bs)
  {
    var m := bs[k].(size := bs[k].size + HEADER + bs[k + 1].size);
    assert bs[k..][2..] == bs[k + 2..] && Merged(bs, k)[k..] == [m] + bs[k + 2..];
    assert bs == bs[..k] + [bs[k], bs[k + 1]] + bs[k + 2..];
    assert forall b :: b in Merged(bs, k) <==> b in bs[..k] || b == m || b in bs[k + 2..];
    assert forall b :: b in bs <==> b in bs[..k] || b == bs[k] || b == bs[k + 1] || b in bs[k + 2..];
  }

  lemma CoalesceSkip(bs: seq<Block>, k: nat)
    requires k + 1 < |bs| && !(bs[k].free && bs[k + 1].free)
    ensures bs[..k] + Coalesce(bs[k..]) == bs[..k + 1] + Coalesce(bs[k + 1..])
  {
    assert bs[k..][1..] == bs[k + 1..] && bs[..k] + [bs[k]] == bs[..k + 1];
  }

  lemma CoalesceEnds(bs: seq<Block>)
    requires bs != []
    ensures bs[..0] + Coalesce(bs[0..]) == Coalesce(bs)
    ensures bs[..|bs| - 1] + Coalesce(bs[|bs| - 1..]) == bs
  {
    assert bs[0..] == bs && |bs[|bs| - 1..]| == 1;
  }

  function Mark(bs: seq<Block>, i: nat): seq<Block>
    requires i < |bs|
  {
    bs[i := bs[i].(free := true)]
  }

  function Release(bs: seq<Block>, i: nat): seq<Block>
    requires i < |bs|
  {
    Coalesce(Mark(bs, i))
  }

  /** Giving back block i leaves the canonical list of the other live blocks. */
  lemma ReleaseCanonical(bs: seq<Block>, lo: nat, hi: nat, i: nat)
    requires Tiles(bs, lo, hi) && i < |bs| && !bs[i].free
    ensures Tiles(Mark(bs, i), lo, hi) && Live(Mark(bs, i)) == Live(bs) - {bs[i]}
    ensures Canonical(Release(bs, i), lo, hi) && Live(Release(bs, i)) == Live(bs) - {bs[i]}
  {
    hide Tiles;
    var m := Mark(bs, i);
    BlockEnds(bs, lo, hi, i);
    assert m[i].End() == bs[i].End();
    TilesOne(m[i]);
    TilesReplace(bs, lo, hi, i, i + 1, [m[i]]);
    assert m == bs[..i] + [m[i]] + bs[i + 1..];
    CoalesceCanonical(m, lo, hi);
    TilesInjective(bs, lo, hi);
    Members(bs, i);
    Members(m, i);
    assert m[..i] == bs[..i] && m[i + 1..] == bs[i + 1..];
  }

  /** Freeing what was just taken gives back the list as it was; after a growth, the list with its free tail longer by
      the new pages, or with one free block more. */
  lemma ReleaseUndoesServe(bs: seq<Block>, lo: nat, hi: nat, n: nat, grows: bool, i: nat)
    requires Canonical(bs, lo, hi) && bs != [] && n % 8 == 0
    requires var r := Serve(bs, hi, n, grows); r.2 != 0 && Owns(r.0, i, r.2)
    ensures Release(Serve(bs, hi, n, grows).0, i)
         == if FirstFit(bs, n) < |bs| then bs else Extend(bs, hi, PagesFor(n) * PAGE_SIZE)
  {
    hide Tiles, NoFreePair, Live, Extend, Place;
    ServeFacts(bs, lo, hi, n, grows);
    var r := Serve(bs, hi, n, grows);
    var (src, hi') := Source(bs, hi, n);
    TilesInjective(r.0, lo, hi');
    assert i == FirstFit(src, n);
    ReleaseCanonical(r.0, lo, hi', i);
    CanonicalUnique(Release(r.0, i), src, lo, hi');
  }

  // ----- freeing many blocks -----

  ghost predicate AllLive(bs: seq<Block>, xs: seq<nat>) {
    (forall a :: a in xs ==> exists b :: b in Live(bs) && b.Payload() == a) &&
    forall i, j :: 0 <= i < j < |xs| ==> xs[i] != xs[j]
  }

  /** Frees the live blocks of the given pointers one after the other. */
  ghost function ReleaseAll(bs: seq<Block>, lo: nat, hi: nat, xs: seq<nat>): (r: seq<Block>)
    requires Tiles(bs, lo, hi) && AllLive(bs, xs)
    ensures xs != [] ==> Canonical(r, lo, hi)
    ensures Tiles(r, lo, hi)
    ensures Live(r) == set b | b in Live(bs) && b.Payload() !in xs
    decreases |xs|
  {
    if xs == [] then bs
    else
      assert exists i: nat :: Owns(bs, i, xs[0]) by {
        assert xs[0] in xs;
        var b :| b in Live(bs) && b.Payload() == xs[0];
        var i :| 0 <= i < |bs| && bs[i] == b;
        assert Owns(bs, i, xs[0]);
      }
      var i: nat :| Owns(bs, i, xs[0]);
      ReleaseCanonical(bs, lo, hi, i);
      TilesInjective(bs, lo, hi);
      assert AllLive(Release(bs, i), xs[1..]) by {
        forall a | a in xs[1..] ensures exists b :: b in Live(Release(bs, i)) && b.Payload() == a {
          assert a in xs;
          var b :| b in Live(bs) && b.Payload() == a;
          assert b != bs[i];
        }
      }
      var r := ReleaseAll(Release(bs, i), lo, hi, xs[1..]);
      r
  }

  /** Freeing the same blocks in any two orders leaves the same list. */
  lemma ReleaseOrder(bs: seq<Block>, lo: nat, hi: nat, xs: seq<nat>, ys: seq<nat>)
    requires Canonical(bs, lo, hi) && AllLive(bs, xs) && AllLive(bs, ys)
    requires forall a :: a in xs <==> a in ys
    ensures ReleaseAll(bs, lo, hi, xs) == ReleaseAll(bs, lo, hi, ys)
  {
    CanonicalUnique(ReleaseAll(bs, lo, hi, xs), ReleaseAll(bs, lo, hi, ys), lo, hi);
  }
}
