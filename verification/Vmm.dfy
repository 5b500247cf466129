/** The virtual memory manager: it builds the page tables out of pages of the physical allocator. */
module Vmm {
  import opened Bits
  import opened Options
  import opened Pmm
  import opened PageTables
  import opened Entries
  import opened BootMap

  ghost predicate SameWalks(mem': Memory, mem: Memory, root: nat) {
    forall path: Path :: |path| == 4 ==> WalkFrom(mem', root, path, 0) == WalkFrom(mem, root, path, 0)
  }

  /** The walks through entry k of a path end in e; all others are as before. */
  ghost predicate OneLeaf(mem': Memory, mem: Memory, root: nat, path: Path, k: nat, e: u64)
    requires |path| == 4 && 2 <= k <= 3
  {
    forall q: Path :: |q| == 4 ==>
      WalkFrom(mem', root, q, 0) == if q[..k + 1] == path[..k + 1] then Leaf(4 - k, e) else WalkFrom(mem, root, q, 0)
  }

  lemma SameWalksTwice(mem'': Memory, mem': Memory, mem: Memory, root: nat)
    requires SameWalks(mem'', mem', root) && SameWalks(mem', mem, root)
    ensures SameWalks(mem'', mem, root)
  {
  }

  lemma NoChange(mem: Memory, tab: map<Path, nat>, root: nat, free: set<nat>)
    ensures SameWalks(mem, mem, root) && TablesFrom(tab, tab, free)
  {
  }

  lemma SameLookup(mem': Memory, mem: Memory, root: nat, virt: u64)
    requires SameWalks(mem', mem, root)
    ensures WalkFrom(mem', root, PathOf(virt), 0) == Lookup(mem', root, virt) == Lookup(mem, root, virt)
  {
  }

  /** A leaf at depth 3 is one page of the address space, a leaf at depth 2 is one 2 MiB page. */
  predicate SamePage(u: u64, v: u64, k: nat) {
    if k == 3 then PageOf(u) == PageOf(v) else HugePageOf(u) == HugePageOf(v)
  }

  lemma LeafIsPage(mem'': Memory, mem': Memory, mem: Memory, root: nat, virt: u64, k: nat, e: u64)
    requires 2 <= k <= 3 && OneLeaf(mem'', mem', root, PathOf(virt), k, e) && SameWalks(mem', mem, root)
    ensures forall v: u64 :: Lookup(mem'', root, v)
              == if SamePage(v, virt, k) then Leaf(4 - k, e) else Lookup(mem, root, v)
  {
    forall v: u64 ensures PathOf(v)[..k + 1] == PathOf(virt)[..k + 1] <==> SamePage(v, virt, k) {
      PathsSplitPages(v, virt);
      assert PathOf(v)[..4] == PathOf(v) && PathOf(virt)[..4] == PathOf(virt);
    }
  }

  /** There is memory for every page that can be handed out. */
  ghost predicate Backed(mem: Memory, free: set<nat>) {
    forall i :: i in free ==> i * PAGE_SIZE in mem
  }

  /** Table pages are pages of the allocator that are not free. */
  ghost predicate TablesHeld(tab: map<Path, nat>, free: set<nat>, pageCount: nat) {
    forall p :: p in tab ==> tab[p] / PAGE_SIZE !in free && tab[p] / PAGE_SIZE < pageCount
  }

  /** Every table is an old one or lies on a page that was free. */
  ghost predicate TablesFrom(tab': map<Path, nat>, tab: map<Path, nat>, free: set<nat>) {
    forall p :: p in tab' ==> (p in tab && tab'[p] == tab[p]) || tab'[p] / PAGE_SIZE in free
  }

  lemma TablesFromTwice(tab'': map<Path, nat>, tab': map<Path, nat>, tab: map<Path, nat>, free': set<nat>,
                        free: set<nat>)
    requires TablesFrom(tab'', tab', free') && TablesFrom(tab', tab, free) && free' <= free
    ensures TablesFrom(tab'', tab, free)
  {
  }

  lemma NoNewTables(tab': map<Path, nat>, tab: map<Path, nat>, t: nat)
    requires TablesFrom(tab', tab, {}) && t !in tab.Values
    ensures t !in tab'.Values
  {
  }

  lemma FromFewer(tab': map<Path, nat>, tab: map<Path, nat>, free': set<nat>, free: set<nat>)
    requires TablesFrom(tab', tab, free') && free' <= free
    ensures TablesFrom(tab', tab, free)
  {
  }

  /** A page just taken from the allocator is no table yet, and stays held once it is one. */
  lemma LinkFreshPage(mem: Memory, tab: map<Path, nat>, root: nat, p: Path, i: Index, page: nat, free: set<nat>,
                      pageCount: nat)
    requires Tree(mem, tab, root) && p in tab && |p| < 3 && tab[p] in mem && !Present(mem[tab[p]][i])
    requires TablesHeld(tab, free, pageCount) && page / PAGE_SIZE in free && page % PAGE_SIZE == 0
    requires 0 < page / PAGE_SIZE < pageCount && pageCount * PAGE_SIZE <= TOP_LIMIT
    ensures p + [i] !in tab
    ensures var mem', tab' := AddedTable(mem, tab[p], i, page, TableEntry(page)), tab[p + [i] := page];
            Tree(mem', tab', root) && SameWalks(mem', mem, root) &&
            TablesHeld(tab', free - {page / PAGE_SIZE}, pageCount)
  {
    assert Node(mem, tab, p) && Linked(mem, tab, p, i);
    TableEntryPoints(page);
    AddTable(mem, tab, root, p, i, page, TableEntry(page));
  }

  /** Pages handed out by the allocator: distinct, not free, and not tables. */
  ghost predicate PagesHeld(pages: seq<u64>, tab: map<Path, nat>, free: set<nat>, pageCount: nat) {
    (forall k :: 0 <= k < |pages| ==>
      pages[k] % PAGE_SIZE == 0 && 0 < pages[k] / PAGE_SIZE < pageCount && pages[k] / PAGE_SIZE !in free) &&
    (forall k, p :: 0 <= k < |pages| && p in tab ==> tab[p] != pages[k]) &&
    (forall j, k :: 0 <= j < k < |pages| ==> pages[j] != pages[k])
  }

  lemma NoPagesHeld(tab: map<Path, nat>, free: set<nat>, pageCount: nat)
    ensures PagesHeld([], tab, free, pageCount)
  {
  }

  /** Taking a page from the allocator does no harm to the tables. */
  lemma FewerFree(mem: Memory, tab: map<Path, nat>, free: set<nat>, free': set<nat>, pageCount: nat)
    requires TablesHeld(tab, free, pageCount) && Backed(mem, free) && free' <= free
    ensures TablesHeld(tab, free', pageCount) && Backed(mem, free')
  {
  }

  lemma PagesHeldStep(pages: seq<u64>, page: u64, tab': map<Path, nat>, tab: map<Path, nat>, free': set<nat>,
                      free: set<nat>,
                      pageCount: nat)
    requires PagesHeld(pages, tab, free, pageCount) && TablesHeld(tab, free, pageCount)
    requires page % PAGE_SIZE == 0 && 0 < page / PAGE_SIZE < pageCount && page / PAGE_SIZE in free
    requires TablesFrom(tab', tab, free - {page / PAGE_SIZE}) && free' <= free - {page / PAGE_SIZE}
    ensures PagesHeld(pages + [page], tab', free', pageCount)
  {
    var s := pages + [page];
    forall k, p | 0 <= k < |s| && p in tab' ensures tab'[p] != s[k] {
      if k == |pages| { assert p in tab ==> tab[p] != page; }
    }
  }

  lemma OneTable(page: nat, free: set<nat>)
    requires page / PAGE_SIZE in free
    ensures TablesFrom(map[[] := page], map[], free)
  {
  }

  /** A root table alone is a tree in which every walk ends at once. */
  lemma EmptyTree(mem: Memory, root: nat)
    requires root in mem && mem[root] == EMPTY_TABLE && root % PAGE_SIZE == 0 && 0 < root < TOP_LIMIT
    ensures Tree(mem, map[[] := root], root) && forall v: u64 :: Lookup(mem, root, v) == Unmapped
  {
    var tab: map<Path, nat> := map[[] := root];
    forall i: Index ensures Linked(mem, tab, [], i) { EmptyEntry(i); }
    forall v: u64 ensures Lookup(mem, root, v) == Unmapped { EmptyEntry(PathOf(v)[0]); }
  }

  // ----- how the code follows entries -----

  /** An entry read through a pointer; where there is no memory, reads give all ones. */
  function Read(mem: Memory, t: nat, i: Index): u64 {
    if t in mem then mem[t][i] else WORD64 - 1
  }

  /** An entry written through a pointer; where there is no memory, writes are lost. */
  function Stored(mem: Memory, t: nat, i: Index, e: u64): Memory {
    if t in mem then Written(mem, t, i, e) else mem
  }

  /** The pointer of the code at depth k of a path: it takes the address in each entry for a table, whatever it is. */
  function Pointer(mem: Memory, root: nat, path: Path, k: nat): nat
    requires |path| == 4 && k <= 3
  {
    if k == 0 then root else Target(Read(mem, Pointer(mem, root, path, k - 1), path[k - 1]))
  }

  /** As far as the tree goes, those pointers are its tables. */
  lemma {:induction false} PointerInTree(mem: Memory, tab: map<Path, nat>, root: nat, path: Path, k: nat)
    requires Tree(mem, tab, root) && |path| == 4 && k <= 3 && path[..k] in tab
    ensures tab[path[..k]] in mem && Pointer(mem, root, path, k) == tab[path[..k]]
  {
    assert Node(mem, tab, path[..k]);
    if k == 0 {
      assert path[..0] == [];
    } else {
      PrefixInTree(mem, tab, root, path, k - 1, k);
      PointerInTree(mem, tab, root, path, k - 1);
      assert path[..k - 1] + [path[k - 1]] == path[..k];
      assert Node(mem, tab, path[..k - 1]) && Linked(mem, tab, path[..k - 1], path[k - 1]);
    }
  }

  /** An entry of the tree is present exactly if there is a table below it or it is a 2 MiB page. */
  lemma EntryInTree(mem: Memory, tab: map<Path, nat>, root: nat, path: Path, k: nat)
    requires Tree(mem, tab, root) && |path| == 4 && k < 3 && path[..k] in tab
    ensures tab[path[..k]] in mem
    ensures var e := mem[tab[path[..k]]][path[k]];
            (Present(e) <==> path[..k + 1] in tab || (k == 2 && WalkFrom(mem, root, path, 0) == Leaf(2, e))) &&
            (!Present(e) ==> e == 0 && forall x :: WalkFrom(mem, root, path, 0) != Leaf(2, x)) &&
            (path[..k + 1] in tab ==> forall x :: WalkFrom(mem, root, path, 0) != Leaf(2, x) || k < 2)
  {
    assert path[..k] + [path[k]] == path[..k + 1];
    assert Node(mem, tab, path[..k]) && Linked(mem, tab, path[..k], path[k]);
    WalkFollowsTree(mem, tab, root, path, k);
    if path[..k + 1] in tab { WalkFollowsTree(mem, tab, root, path, k + 1); }
  }

  /** With no table missing, all of them are there. */
  lemma NothingMissing(mem: Memory, tab: map<Path, nat>, root: nat, path: Path, n: nat)
    requires Tree(mem, tab, root) && |path| == 4 && 2 <= n <= 3
    ensures Missing(tab.Keys, path, n) == 0 ==> tab.Keys + Prefixes(path, n) == tab.Keys
    ensures Missing(tab.Keys, path, n) > 0 <==> path[..n] !in tab
  {
    if path[..n] in tab {
      PrefixInTree(mem, tab, root, path, 1, n);
      PrefixInTree(mem, tab, root, path, 2, n);
    }
  }

  lemma LastPrefix(keys: set<Path>, path: Path, n: nat)
    requires 2 <= n <= 3 && |path| == 4
    ensures path[..n] in keys + Prefixes(path, n)
  {
  }

  /** There is nothing in the tree below a page table. */
  lemma NothingBelow(mem: Memory, tab: map<Path, nat>, root: nat, path: Path)
    requires Tree(mem, tab, root) && |path| == 4
    ensures path[..4] !in tab
  {
    assert path[..4] in tab ==> Node(mem, tab, path[..4]);
  }

  /** A write to a page that is no table keeps the tree and all walks, whatever it writes. */
  lemma WriteElsewhere(mem: Memory, tab: map<Path, nat>, root: nat, t: nat, i: Index, e: u64)
    requires Tree(mem, tab, root) && t !in tab.Values
    ensures Tree(Stored(mem, t, i, e), tab, root) && SameWalks(Stored(mem, t, i, e), mem, root)
  {
    var mem' := Stored(mem, t, i, e);
    forall q | q in tab ensures Node(mem', tab, q) {
      assert Node(mem, tab, q) && tab[q] in tab.Values;
      forall j: Index ensures |q| < 3 ==> Linked(mem', tab, q, j) {
        if |q| < 3 { assert Linked(mem, tab, q, j); }
      }
    }
    forall path: Path | |path| == 4 ensures WalkFrom(mem', root, path, 0) == WalkFrom(mem, root, path, 0) {
      assert path[..0] == [];
      WalkElsewhere(mem, tab, root, t, i, e, path, 0);
    }
  }

  lemma {:induction false} WalkElsewhere(mem: Memory, tab: map<Path, nat>, root: nat, t: nat, i: Index, e: u64,
                                         path: Path, k: nat)
    requires Tree(mem, tab, root) && t !in tab.Values && |path| == 4 && k <= 3 && path[..k] in tab
    ensures WalkFrom(Stored(mem, t, i, e), tab[path[..k]], path, k) == WalkFrom(mem, tab[path[..k]], path, k)
    decreases 4 - k
  {
    var q := path[..k];
    assert Node(mem, tab, q) && tab[q] in tab.Values;
    if k < 3 {
      assert q + [path[k]] == path[..k + 1];
      assert Linked(mem, tab, q, path[k]);
      if path[..k + 1] in tab { WalkElsewhere(mem, tab, root, t, i, e, path, k + 1); }
    }
  }

  // ----- when a page can be mapped -----

  /** The page of virt is mapped to e at depth k, no other page's walk has changed, and the tables are a tree of old
      tables and pages that were free. */
  ghost predicate Maps(mem': Memory, mem: Memory, tab: map<Path, nat>, free: set<nat>, root: nat, virt: u64, k: nat,
                       e: u64)
    requires 2 <= k <= 3
  {
    (forall v: u64 :: Lookup(mem', root, v) == if SamePage(v, virt, k) then Leaf(4 - k, e) else Lookup(mem, root, v)) &&
    exists tab' :: Tree(mem', tab', root) && TablesFrom(tab', tab, free)
  }

  /** There are free pages for the missing tables, and a 4 KiB page does not lie in a 2 MiB page. */
  ghost predicate Mappable(mem: Memory, tab: map<Path, nat>, free: set<nat>, root: nat, virt: u64, k: nat)
    requires 2 <= k <= 3
  {
    Missing(tab.Keys, PathOf(virt), k) <= |free| && (k == 3 ==> forall x: u64 :: Lookup(mem, root, virt) != Leaf(2, x))
  }

  lemma MapsShown(mem': Memory, tab': map<Path, nat>, mem: Memory, tab: map<Path, nat>, free: set<nat>, root: nat,
                  virt: u64,
                  k: nat, e: u64)
    requires 2 <= k <= 3 && Tree(mem', tab', root) && TablesFrom(tab', tab, free)
    requires forall v: u64 :: Lookup(mem', root, v)
               == if SamePage(v, virt, k) then Leaf(4 - k, e) else Lookup(mem, root, v)
    ensures Maps(mem', mem, tab, free, root, virt, k, e)
  {
  }

  /** Whatever a call does to memory, it cannot map a page that is not mappable. */
  lemma OnlyMappable(mem': Memory, mem: Memory, tab: map<Path, nat>, free: set<nat>, root: nat, virt: u64, k: nat,
                     e: u64)
    requires 2 <= k <= 3 && Tree(mem, tab, root) && Maps(mem', mem, tab, free, root, virt, k, e)
    ensures Mappable(mem, tab, free, root, virt, k)
  {
    hide Tree, TablesFrom, WalkFrom, PathOf, PageOf, HugePageOf, Missing, Prefixes;
    assert SamePage(virt, virt, k) && Lookup(mem', root, virt) == Leaf(4 - k, e);
    var tab' :| Tree(mem', tab', root) && TablesFrom(tab', tab, free);
    var path := PathOf(virt);
    LeafInTree(mem', tab', root, path, k, e);
    TablesNeedPages(mem', tab', tab, root, free, path, k);
    if k == 3 {
      forall x: u64 ensures Lookup(mem, root, virt) != Leaf(2, x) {
        var v := Neighbour(virt);
        assert Lookup(mem', root, v) == Lookup(mem, root, v);
        HugeWalksShared(mem, root, path, PathOf(v), 0, x);
        HugeWalksShared(mem', root, path, PathOf(v), 0, x);
      }
    }
  }

  /** Another 4 KiB page of the same 2 MiB page. */
  lemma Neighbour(virt: u64) returns (v: u64)
    ensures PageOf(v) != PageOf(virt) && PathOf(v)[..3] == PathOf(virt)[..3]
  {
    hide PathOf;
    var q := virt / 0x20_0000;
    var base: u64, next: u64 := q * 0x20_0000, q * 0x20_0000 + 0x1000;
    EvenPage(q);
    v := if PageOf(virt) == PageOf(base) then next else base;
    assert base / 0x20_0000 == q == next / 0x20_0000;
    PathsSplitPages(v, virt);
  }

  lemma EvenPage(q: nat)
    requires q * 0x20_0000 + 0x1000 < WORD64
    ensures PageOf(q * 0x20_0000) != PageOf(q * 0x20_0000 + 0x1000)
  {
    assert q * 0x20_0000 / 0x1000 == q * 512 && (q * 0x20_0000 + 0x1000) / 0x1000 == q * 512 + 1;
  }

  /** In any memory at all, the pages of one 2 MiB page have the first three steps of the walk in common. */
  lemma {:induction false} HugeWalksShared(mem: Memory, t: nat, p: Path, q: Path, k: nat, x: u64)
    requires |p| == |q| == 4 && k <= 2 && p[..3] == q[..3]
    ensures WalkFrom(mem, t, p, k) == Leaf(2, x) <==> WalkFrom(mem, t, q, k) == Leaf(2, x)
    decreases 2 - k
  {
    assert p[k] == p[..3][k] == q[k];
    if k < 2 && t in mem { HugeWalksShared(mem, Target(mem[t][p[k]]), p, q, k + 1, x); }
  }

  /** A walk that ends in a leaf went through tables of the tree. */
  lemma LeafInTree(mem: Memory, tab: map<Path, nat>, root: nat, path: Path, k: nat, e: u64)
    requires Tree(mem, tab, root) && |path| == 4 && 2 <= k <= 3 && WalkFrom(mem, root, path, 0) == Leaf(4 - k, e)
    ensures path[..k] in tab
  {
    assert path[..0] == [];
    WalkDescends(mem, tab, root, path, 0, k, e);
    WalkDescends(mem, tab, root, path, 1, k, e);
    if k == 3 { WalkDescends(mem, tab, root, path, 2, k, e); }
  }

  lemma WalkDescends(mem: Memory, tab: map<Path, nat>, root: nat, path: Path, j: nat, k: nat, e: u64)
    requires Tree(mem, tab, root) && |path| == 4 && j < k <= 3 && WalkFrom(mem, root, path, 0) == Leaf(4 - k, e)
    requires path[..j] in tab
    ensures path[..j + 1] in tab
  {
    WalkFollowsTree(mem, tab, root, path, j);
    assert path[..j] + [path[j]] == path[..j + 1];
    assert Node(mem, tab, path[..j]) && Linked(mem, tab, path[..j], path[j]);
  }

  /** New tables lie on distinct pages that were free. */
  lemma TablesNeedPages(mem': Memory, tab': map<Path, nat>, tab: map<Path, nat>, root: nat, free: set<nat>, path: Path,
                        k: nat)
    requires Tree(mem', tab', root) && TablesFrom(tab', tab, free) && |path| == 4 && 2 <= k <= 3 && path[..k] in tab'
    ensures Missing(tab.Keys, path, k) <= |free|
  {
    hide Missing, WalkFrom, Tree, Prefixes, TablesFrom;
    var added := Prefixes(path, k) - tab.Keys;
    MissingIs(tab.Keys, path, k);
    forall p | p in added ensures p in tab' && tab'[p] / PAGE_SIZE in free {
      PrefixesInTree(mem', tab', root, path, k, p);
      NewTable(tab', tab, free, p);
    }
    forall p, q | p in added && q in added && p != q ensures tab'[p] / PAGE_SIZE != tab'[q] / PAGE_SIZE {
      TablesApart(mem', tab', root, p, q);
    }
    DistinctPages(added, tab', free);
  }

  lemma MissingIs(keys: set<Path>, path: Path, k: nat)
    requires 2 <= k <= 3 <= |path|
    ensures Missing(keys, path, k) == |Prefixes(path, k) - keys|
  {
    hide Missing, Prefixes;
    MissingCounts(keys, path, k);
    assert keys + Prefixes(path, k) == keys + (Prefixes(path, k) - keys);
  }

  lemma PrefixesInTree(mem: Memory, tab: map<Path, nat>, root: nat, path: Path, k: nat, p: Path)
    requires Tree(mem, tab, root) && |path| == 4 && 2 <= k <= 3 && path[..k] in tab && p in Prefixes(path, k)
    ensures p in tab
  {
    PrefixInTree(mem, tab, root, path, 1, k);
    PrefixInTree(mem, tab, root, path, 2, k);
  }

  lemma NewTable(tab': map<Path, nat>, tab: map<Path, nat>, free: set<nat>, p: Path)
    requires TablesFrom(tab', tab, free) && p in tab' && p !in tab
    ensures tab'[p] / PAGE_SIZE in free
  {
  }

  lemma TablesApart(mem: Memory, tab: map<Path, nat>, root: nat, p: Path, q: Path)
    requires Tree(mem, tab, root) && p in tab && q in tab && p != q
    ensures tab[p] / PAGE_SIZE != tab[q] / PAGE_SIZE
  {
    hide Linked;
    assert Node(mem, tab, p) && Node(mem, tab, q);
  }

  lemma {:induction false} DistinctPages(ps: set<Path>, tab: map<Path, nat>, free: set<nat>)
    requires forall p :: p in ps ==> p in tab && tab[p] / PAGE_SIZE in free
    requires forall p, q :: p in ps && q in ps && p != q ==> tab[p] / PAGE_SIZE != tab[q] / PAGE_SIZE
    ensures |ps| <= |free|
  {
    if ps != {} {
      var p :| p in ps;
      DistinctPages(ps - {p}, tab, free - {tab[p] / PAGE_SIZE});
    }
  }

  /** With a table missing and no page left, the pointer goes on at physical page 0, which is never a table. */
  lemma MissingLeadsToZero(mem: Memory, tab: map<Path, nat>, root: nat, path: Path, k: nat)
    requires Tree(mem, tab, root) && |path| == 4 && k < 3 && path[..k] in tab && path[..k + 1] !in tab
    requires forall x: u64 :: WalkFrom(mem, root, path, 0) != Leaf(2, x)
    ensures Pointer(mem, root, path, k + 1) == 0 && 0 !in tab.Values && WalkFrom(mem, root, path, 0) == Unmapped
  {
    hide WalkFrom, Tree, Target;
    PointerInTree(mem, tab, root, path, k);
    EntryInTree(mem, tab, root, path, k);
    EmptyEntryEnds(mem, tab, root, path, k);
    ZeroTarget();
    forall p | p in tab ensures tab[p] != 0 { TableNotZero(mem, tab, root, p); }
  }

  lemma EmptyEntryEnds(mem: Memory, tab: map<Path, nat>, root: nat, path: Path, k: nat)
    requires Tree(mem, tab, root) && |path| == 4 && k < 3 && path[..k] in tab && tab[path[..k]] in mem
    ensures mem[tab[path[..k]]][path[k]] == 0 ==> WalkFrom(mem, root, path, 0) == Unmapped
  {
    hide Tree;
    WalkFollowsTree(mem, tab, root, path, k);
  }

  lemma ZeroTarget()
    ensures Target(0) == 0
  {
  }

  lemma TableNotZero(mem: Memory, tab: map<Path, nat>, root: nat, p: Path)
    requires Tree(mem, tab, root) && p in tab
    ensures tab[p] != 0
  {
    hide Linked;
    assert Node(mem, tab, p);
  }

  /** In a 2 MiB page the pointer goes on at the page itself: its first 4 KiB are taken for a page table. */
  lemma HugePageTakenForTable(mem: Memory, tab: map<Path, nat>, root: nat, path: Path, e: u64)
    requires Tree(mem, tab, root) && |path| == 4 && WalkFrom(mem, root, path, 0) == Leaf(2, e)
    ensures Pointer(mem, root, path, 3) == Target(e)
  {
    LeafInTree(mem, tab, root, path, 2, e);
    PointerInTree(mem, tab, root, path, 2);
    WalkFollowsTree(mem, tab, root, path, 2);
  }

  /** A root table, physical page 0, and no free page: the entry for address 0x5000 is written to page 0. */
  lemma MapWithoutPages(e: u64)
    ensures var root, mem := 0x1000, map[0 := EMPTY_TABLE, 0x1000 := EMPTY_TABLE];
            var tab: map<Path, nat> := map[[] := 0x1000];
            Tree(mem, tab, root) && !Mappable(mem, tab, {}, root, 0x5000, 3) &&
            Stored(mem, Pointer(mem, root, PathOf(0x5000), 3), PathOf(0x5000)[3], e) == mem[0 := EMPTY_TABLE[5 := e]]
  {
    hide PathOf, Pointer;
    var root: nat, mem: Memory := 0x1000, map[0 := EMPTY_TABLE, 0x1000 := EMPTY_TABLE];
    var tab: map<Path, nat> := map[[] := root];
    EmptyTree(mem, root);
    PathOfFive();
    ZeroPointers(mem, root, PathOf(0x5000));
    assert |PathOf(0x5000)[..1]| == 1 && PathOf(0x5000)[..1] !in tab;
  }

  lemma PathOfFive()
    ensures PathOf(0x5000) == [0, 0, 0, 5]
  {
  }

  lemma ZeroPointers(mem: Memory, root: nat, path: Path)
    requires |path| == 4 && root in mem && mem[root] == EMPTY_TABLE && 0 in mem && mem[0] == EMPTY_TABLE
    ensures Pointer(mem, root, path, 3) == 0
  {
    EmptyEntry(path[0]);
    EmptyEntry(path[1]);
    EmptyEntry(path[2]);
    assert Pointer(mem, root, path, 1) == 0;
    assert Pointer(mem, root, path, 2) == 0;
  }

  // ----- writes after the switch of address space -----

  /** A word written at entry i of the page that the code points to. */
  datatype Write = Write(page: u64, i: Index, e: u64)

  /** After the switch a pointer goes through the tables itself; where it is not mapped, the processor faults and
      nothing is written. */
  function WriteThrough(mem: Memory, root: nat, w: Write): Memory {
    match Translate(Lookup(mem, root, w.page), w.page)
    case Some(q) => Stored(mem, q, w.i, w.e)
    case None => mem
  }

  function WriteAll(mem: Memory, root: nat, ws: seq<Write>): Memory {
    if ws == [] then mem else WriteAll(WriteThrough(mem, root, ws[0]), root, ws[1..])
  }

  /** In the boot address space of the code, no writes through table pointers ever reach a table: whatever they are, the
      tables and all walks stay as they were. */
  lemma {:induction false} TablesOutOfReach(mem: Memory, tab: map<Path, nat>, root: nat, stack: seq<u64>,
                                            ws: seq<Write>)
    requires Tree(mem, tab, root) && |stack| <= STACK_PAGES && forall w :: w in ws ==> w.page < LOWER_HALF
    requires forall v: u64 :: Lookup(mem, root, v) == StackView(v, stack, ALL_STEPS)
    ensures Tree(WriteAll(mem, root, ws), tab, root) && SameWalks(WriteAll(mem, root, ws), mem, root)
    decreases |ws|
  {
    hide Tree, StackView, Translate, WalkFrom, Stored, PathOf;
    if ws != [] {
      assert ws[0] in ws;
      LowerHalf(ws[0].page, stack);
      var mem' := WriteThrough(mem, root, ws[0]);
      if ws[0].page < MAPPED_SIZE {
        var q := if ws[0].page < 0x8000_0000 then ws[0].page + 0x8000_0000 else ws[0].page;
        forall p | p in tab ensures tab[p] != q { TablesLow(mem, tab, root, p); }
        WriteElsewhere(mem, tab, root, q, ws[0].i, ws[0].e);
      }
      forall v: u64 ensures Lookup(mem', root, v) == StackView(v, stack, ALL_STEPS) { assert |PathOf(v)| == 4; }
      TablesOutOfReach(mem', tab, root, stack, ws[1..]);
    }
  }

  lemma TablesLow(mem: Memory, tab: map<Path, nat>, root: nat, p: Path)
    requires Tree(mem, tab, root) && p in tab
    ensures tab[p] < TOP_LIMIT
  {
    hide Linked;
    assert Node(mem, tab, p);
  }

  // ----- the code -----

  datatype InitResult = VmmOk | VmmOutOfMemory

  class Manager {
    const pmm: Allocator
    var mem: Memory
    var pml4: nat
    ghost var tab: map<Path, nat>

    /** Every call since the start has mapped its page and changed nothing else. */
    ghost var faithful: bool

    ghost predicate Ready()
      reads this, pmm, pmm.bitmap
    {
      pmm.Valid() && 0 !in pmm.Free() && Backed(mem, pmm.Free())
    }

    ghost predicate Valid()
      reads this, pmm, pmm.bitmap
    {
      Ready() && Tree(mem, tab, pml4) && TablesHeld(tab, pmm.Free(), pmm.pageCount)
    }

    ghost function View(virt: u64): Walk
      reads this
    {
      Lookup(mem, pml4, virt)
    }

    /** There are free pages for the missing tables, and a 4 KiB page does not lie in a 2 MiB page. */
    ghost predicate CanMap(virt: u64, k: nat)
      requires 2 <= k <= 3
      reads this, pmm, pmm.bitmap
    {
      Mappable(mem, tab, pmm.Free(), pml4, virt, k)
    }

    /** Every address of the allocator's pages means itself. The code reaches tables and fresh pages at their physical
        addresses, so after the switch of address space this is what it relies on. */
    ghost predicate InPlace()
      reads this, pmm
    {
      forall a: u64 :: a < pmm.pageCount * PAGE_SIZE ==> Translate(View(a), a) == Some(a)
    }

    /** After the switch to the address space built at boot, the allocator's pages are in place if and only if the
        kernel loop stopped after 2 GiB at the latest, and the tables are if and only if they lie above what it ran
        over. As the code has it, every table is displaced by 2 GiB. */
    lemma InPlaceExactlyIfStopped(stack: seq<u64>, n: nat)
      requires Valid() && n <= 0x800 && |stack| <= STACK_PAGES && forall v: u64 :: View(v) == StackView(v, stack, n)
      ensures InPlace() <==> n <= KERNEL_STEPS
      ensures (forall p :: p in tab ==> tab[p] < WORD64 && Translate(View(tab[p]), tab[p]) == Some(tab[p])) <==>
              (forall p :: p in tab ==> tab[p] / HUGE_SIZE + KERNEL_STEPS >= n)
      ensures n == ALL_STEPS ==>
                forall p :: p in tab ==>
                  tab[p] < WORD64 && Translate(View(tab[p]), tab[p]) == Some(tab[p] + 0x8000_0000)
    {
      hide Lookup, StackView, Translate, FreeSet, PaddingLocked;
      forall a: u64 | a < TOP_LIMIT
        ensures Translate(View(a), a) == Some(if a / HUGE_SIZE + KERNEL_STEPS < n then a + 0x8000_0000 else a)
      {
        LowAddress(a, stack, n);
      }
      RootInTree(mem, tab, pml4);
      forall p | p in tab ensures tab[p] < TOP_LIMIT { assert Node(mem, tab, p); }
      if n > KERNEL_STEPS {
        assert pml4 / PAGE_SIZE < pmm.pageCount;
        assert Translate(View(0), 0) == Some(0x8000_0000);
      }
    }

    /** In the boot address space of the code, address 0 cannot be mapped as a 4 KiB page: the entry would be written
        into the 2 MiB page at 0x80000000. */
    lemma BootPageBlocked(stack: seq<u64>)
      requires Valid() && |stack| <= STACK_PAGES && forall v: u64 :: View(v) == StackView(v, stack, ALL_STEPS)
      ensures !CanMap(0, 3) && Pointer(mem, pml4, PathOf(0), 3) == 0x8000_0000
    {
      hide Tree, FreeSet, PaddingLocked, WalkFrom, PathOf, Missing, StackView, Target, Pointer;
      var e := BootPageZero(stack);
      assert View(0) == Leaf(2, e);
      HugePageTakenForTable(mem, tab, pml4, PathOf(0), e);
    }

    constructor (pmm: Allocator, mem: Memory)
      requires pmm.Valid() && 0 !in pmm.Free() && Backed(mem, pmm.Free())
      ensures Ready() && this.pmm == pmm && this.mem == mem
    {
      this.pmm := pmm;
      this.mem := mem;
      pml4 := 0;
      tab := map[];
      faithful := true;
    }

    /** The table at path p gets a fresh empty table at entry idx; with no page left nothing happens. */
    method AllocEntry(table: nat, idx: Index, ghost p: Path)
      requires Ready()
      requires pmm.Free() != {} ==>
                 Valid() && p in tab && tab[p] == table && |p| < 3 && table in mem && !Present(mem[table][idx])
      modifies this`mem, this`tab, pmm.bitmap
      ensures Ready()
      ensures old(pmm.Free()) == {} ==> mem == old(mem) && tab == old(tab) && pmm.Free() == {}
      ensures old(pmm.Free()) != {} ==>
                Valid() && SameWalks(mem, old(mem), pml4) &&
                p + [idx] !in old(tab) && p + [idx] in tab && tab == old(tab)[p + [idx] := tab[p + [idx]]] &&
                tab[p + [idx]] / PAGE_SIZE in old(pmm.Free()) &&
                pmm.Free() == old(pmm.Free()) - {tab[p + [idx]] / PAGE_SIZE}
    {
      hide Tree, TablesHeld, WalkFrom, FreeSet, PaddingLocked;
      var phys := pmm.AllocPage();
      if phys == 0 { return; }
      LinkFreshPage(mem, tab, pml4, p, idx, phys, old(pmm.Free()), pmm.pageCount);
      mem := mem[phys := EMPTY_TABLE];
      pmm.LockRegion(phys, PAGE_SIZE);
      assert pmm.Free() == old(pmm.Free()) - {phys / PAGE_SIZE};
      mem := mem[table := mem[table][idx := TableEntry(phys)]];
      tab := tab[p + [idx] := phys];
    }

    /** One step down a path. A missing table is created when there is a page for it; the address in the entry is then
        taken for a table, be it zero or that of a 2 MiB page. */
    method NextTable(table: nat, path: Path, k: nat) returns (next: nat)
      requires Ready() && |path| == 4 && k < 3 && table == Pointer(mem, pml4, path, k)
      requires pmm.Free() != {} ==> Valid() && path[..k] in tab
      modifies this`mem, this`tab, pmm.bitmap
      ensures Ready() && next == Pointer(mem, pml4, path, k + 1)
      ensures old(pmm.Free()) == {} ==> mem == old(mem) && tab == old(tab) && pmm.Free() == {}
      ensures old(pmm.Free()) != {} ==>
                Valid() && SameWalks(mem, old(mem), pml4) && TablesFrom(tab, old(tab), old(pmm.Free())) &&
                pmm.Free() <= old(pmm.Free()) &&
                if k == 2 && exists x: u64 :: WalkFrom(old(mem), pml4, path, 0) == Leaf(2, x)
                then mem == old(mem) && tab == old(tab) && pmm.Free() == old(pmm.Free())
                else tab.Keys == old(tab.Keys) + {path[..k + 1]} &&
                     |pmm.Free()| == |old(pmm.Free())| - Absent(old(tab.Keys), path[..k + 1])
    {
      hide Tree, TablesHeld, WalkFrom, FreeSet, PaddingLocked, Present, Target;
      NoChange(mem, tab, pml4, pmm.Free());
      assert path[..k] + [path[k]] == path[..k + 1];
      if pmm.Free() != {} {
        PointerInTree(mem, tab, pml4, path, k);
        EntryInTree(mem, tab, pml4, path, k);
      }
      var entry := Read(mem, table, path[k]);
      Masks(entry);
      if And(entry, PTE_PRESENT) == 0 {
        AllocEntry(table, path[k], path[..k]);
        if old(pmm.Free()) != {} { PointerInTree(mem, tab, pml4, path, k); }
      }
      entry := Read(mem, table, path[k]);
      Masks(entry);
      next := And(entry, ADDRESS_MASK);
    }

    /** From the root to the page directory of a path. Without pages enough for the tables on the way, all are used
        up. */
    method PageDirectory(path: Path) returns (table: nat)
      requires Ready() && |path| == 4 && (pmm.Free() == {} || Valid())
      modifies this`mem, this`tab, pmm.bitmap
      ensures Ready() && table == Pointer(mem, pml4, path, 2) && pmm.Free() <= old(pmm.Free())
      ensures old(pmm.Free()) == {} ==> mem == old(mem) && tab == old(tab)
      ensures old(Valid()) ==> Valid() && SameWalks(mem, old(mem), pml4) && TablesFrom(tab, old(tab), old(pmm.Free()))
      ensures old(Valid()) ==>
                if Missing(old(tab.Keys), path, 2) <= |old(pmm.Free())|
                then tab.Keys == old(tab.Keys) + Prefixes(path, 2) &&
                     |pmm.Free()| == |old(pmm.Free())| - Missing(old(tab.Keys), path, 2)
                else pmm.Free() == {}
    {
      hide Tree, TablesHeld, TablesFrom, Backed, SameWalks, FreeSet, PaddingLocked, Read;
      NoChange(mem, tab, pml4, pmm.Free());
      assert path[..0] == [];
      assert |path[..1]| != |path[..2]|;
      if Valid() { RootInTree(mem, tab, pml4); }
      table := NextTable(pml4, path, 0);
      ghost var mem1, tab1, free1 := mem, tab, pmm.Free();
      table := NextTable(table, path, 1);
      if old(Valid()) {
        NoChange(mem, tab, pml4, pmm.Free());
        SameWalksTwice(mem, mem1, old(mem), pml4);
        TablesFromTwice(tab, tab1, old(tab), free1, old(pmm.Free()));
        NothingMissing(old(mem), old(tab), pml4, path, 2);
      }
    }

    /** The same one level further, to the page table of a path. */
    method PageTable(virt: u64) returns (table: nat)
      requires Ready() && (pmm.Free() == {} || Valid())
      modifies this`mem, this`tab, pmm.bitmap
      ensures Ready() && table == Pointer(mem, pml4, PathOf(virt), 3) && pmm.Free() <= old(pmm.Free())
      ensures old(pmm.Free()) == {} ==> mem == old(mem) && tab == old(tab)
      ensures old(Valid()) ==> Valid() && SameWalks(mem, old(mem), pml4) && TablesFrom(tab, old(tab), old(pmm.Free()))
      ensures old(Valid() && CanMap(virt, 3)) ==>
                tab.Keys == old(tab.Keys) + Prefixes(PathOf(virt), 3) &&
                |pmm.Free()| == |old(pmm.Free())| - Missing(old(tab.Keys), PathOf(virt), 3)
      ensures old(Valid() && Missing(tab.Keys, PathOf(virt), 3) > |pmm.Free()|) ==> pmm.Free() == {}
    {
      hide Tree, TablesHeld, TablesFrom, Backed, FreeSet, PaddingLocked, SameWalks, WalkFrom, Prefixes, Missing, Read,
           PathOf;
      var p := PathOf(virt);
      ThirdTable(tab.Keys, p);
      table := PageDirectory(p);
      ghost var mem1, tab1, free1 := mem, tab, pmm.Free();
      if old(Valid()) {
        SameLookup(mem1, old(mem), pml4, virt);
        LastPrefix(old(tab.Keys), p, 2);
        NothingMissing(old(mem), old(tab), pml4, p, 3);
        AllPrefixes(old(tab.Keys), p);
        NoChange(mem, tab, pml4, pmm.Free());
      }
      table := NextTable(table, p, 2);
      if old(Valid()) {
        NoChange(mem, tab, pml4, pmm.Free());
        SameWalksTwice(mem, mem1, old(mem), pml4);
        TablesFromTwice(tab, tab1, old(tab), free1, old(pmm.Free()));
      }
    }

    /** table->entries[...] = e for the last entry of a walk, wherever the pointer has gone. */
    method SetLeaf(table: nat, path: Path, k: nat, e: u64)
      requires Ready() && |path| == 4 && 2 <= k <= 3 && table == Pointer(mem, pml4, path, k)
      requires Present(e) && (k == 2 ==> Huge(e))
      modifies this`mem, this`tab
      ensures Ready() && mem == Stored(old(mem), table, path[k], e)
      ensures old(Valid()) && path[..k] in old(tab) ==>
                Valid() && OneLeaf(mem, old(mem), pml4, path, k, e) &&
                tab.Keys == if k == 3 then old(tab.Keys) else old(tab.Keys) - {path[..3]}
      ensures old(Valid()) && table !in old(tab.Values) ==> Valid() && tab == old(tab) && SameWalks(mem, old(mem), pml4)
      ensures old(Valid()) && table in old(tab.Values) ==> table in tab.Values
      ensures TablesFrom(tab, old(tab), {})
    {
      hide FreeSet, PaddingLocked, WalkFrom, Tree;
      if Valid() && table !in tab.Values {
        if path[..k] in tab { PointerInTree(mem, tab, pml4, path, k); }
        WriteElsewhere(mem, tab, pml4, table, path[k], e);
      } else if Valid() && path[..k] in tab {
        PointerInTree(mem, tab, pml4, path, k);
        assert path[..k + 1] == path[..k] + [path[k]];
        WriteLeaf(mem, tab, pml4, path[..k], path[k], e);
        NothingBelow(mem, tab, pml4, path);
        assert |path[..k]| != |path[..k + 1]|;
        tab := tab - {path[..k + 1]};
        assert path[..k] in tab && tab[path[..k]] == table;
      }
      mem := if table in mem then mem[table := mem[table][path[k] := e]] else mem;
    }

    /** Maps one 4 KiB page. This happens, with no other page's walk changed, if and only if there are pages for the
        missing tables and no 2 MiB page in the way; else the entry goes wherever the pointers lead from the tables
        that could be linked. */
    method MapTable(virt: u64, phys: u64, flags: u64) returns (ghost linked: Memory)
      requires Ready() && (pmm.Free() == {} || Valid())
      modifies this`mem, this`tab, this`faithful, pmm.bitmap
      ensures Ready() && pmm.Free() <= old(pmm.Free())
      ensures virt % PAGE_SIZE != 0 ==>
                mem == old(mem) && tab == old(tab) && pmm.Free() == old(pmm.Free()) && faithful == old(faithful)
      ensures virt % PAGE_SIZE == 0 ==>
                faithful ==
                  (old(faithful) &&
                    Maps(mem, old(mem), old(tab), old(pmm.Free()), pml4, virt, 3, PageEntry(phys, flags))) &&
                mem == Stored(linked, Pointer(linked, pml4, PathOf(virt), 3), PathOf(virt)[3],
                  PageEntry(phys, flags)) &&
                (old(pmm.Free()) == {} ==> linked == old(mem)) && (old(Valid()) ==> SameWalks(linked, old(mem), pml4))
      ensures virt % PAGE_SIZE == 0 && old(Valid()) ==>
                (Maps(mem, old(mem), old(tab), old(pmm.Free()), pml4, virt, 3, PageEntry(phys, flags)) <==>
                  old(CanMap(virt, 3)))
      ensures virt % PAGE_SIZE == 0 && old(Valid() && Missing(tab.Keys, PathOf(virt), 3) > |pmm.Free()|) ==>
                pmm.Free() == {}
      ensures virt % PAGE_SIZE == 0 && old(Valid()) && Pointer(linked, pml4, PathOf(virt), 3) !in tab.Values ==>
                Valid() && SameWalks(mem, old(mem), pml4) && (old(pmm.Free()) == {} ==> tab == old(tab))
      ensures old(Valid()) ==> TablesFrom(tab, old(tab), old(pmm.Free()))
      ensures old(Valid() && (virt % PAGE_SIZE == 0 ==> CanMap(virt, 3))) ==>
                Valid() &&
                (virt % PAGE_SIZE == 0 ==>
                  (forall v: u64 :: View(v) == if PageOf(v) == PageOf(virt) then Leaf(1, PageEntry(phys, flags))
                                               else old(View(v))) &&
                  tab.Keys == old(tab.Keys) + Prefixes(PathOf(virt), 3) &&
                  |pmm.Free()| == |old(pmm.Free())| - Missing(old(tab.Keys), PathOf(virt), 3))
    {
      hide Tree, TablesHeld, TablesFrom, Backed, OneLeaf, FreeSet, PaddingLocked, SameWalks, Lookup, WalkFrom, Prefixes,
           Missing, Maps, Mappable, PathOf, PageOf;
      linked := mem;
      NoChange(mem, tab, pml4, pmm.Free());
      if virt % 0x1000 != 0 { return; }
      var p := PathOf(virt);
      var table := PageTable(virt);
      linked := mem;
      ghost var linkedTab := tab;
      PageEntryPresent(phys, flags);
      SetLeaf(table, p, 3, PageEntry(phys, flags));
      ghost var before, beforeTab, free := old(mem), old(tab), old(pmm.Free());
      faithful := faithful && Maps(mem, before, beforeTab, free, pml4, virt, 3, PageEntry(phys, flags));
      if old(Valid()) {
        TablesFromTwice(tab, linkedTab, old(tab), {}, old(pmm.Free()));
        if table !in linkedTab.Values { SameWalksTwice(mem, linked, old(mem), pml4); }
        if old(CanMap(virt, 3)) {
          LastPrefix(old(tab.Keys), p, 3);
          LeafIsPage(mem, linked, old(mem), pml4, virt, 3, PageEntry(phys, flags));
          MapsShown(mem, tab, before, beforeTab, free, pml4, virt, 3, PageEntry(phys, flags));
        } else if Maps(mem, before, beforeTab, free, pml4, virt, 3, PageEntry(phys, flags)) {
          OnlyMappable(mem, before, beforeTab, free, pml4, virt, 3, PageEntry(phys, flags));
        }
      }
    }

    /** Maps one 2 MiB page, if and only if there are pages for the missing tables. A table that was there before drops
        out of the tree but stays held. */
    method MapTableHuge(virt: u64, phys: u64, flags: u64) returns (ghost linked: Memory)
      requires Ready() && (pmm.Free() == {} || Valid())
      modifies this`mem, this`tab, this`faithful, pmm.bitmap
      ensures Ready() && pmm.Free() <= old(pmm.Free())
      ensures virt % HUGE_SIZE != 0 ==>
                mem == old(mem) && tab == old(tab) && pmm.Free() == old(pmm.Free()) && faithful == old(faithful)
      ensures virt % HUGE_SIZE == 0 ==>
                faithful ==
                  (old(faithful) &&
                    Maps(mem, old(mem), old(tab), old(pmm.Free()), pml4, virt, 2, HugeEntry(phys, flags))) &&
                mem == Stored(linked, Pointer(linked, pml4, PathOf(virt), 2), PathOf(virt)[2],
                  HugeEntry(phys, flags)) &&
                (old(pmm.Free()) == {} ==> linked == old(mem)) && (old(Valid()) ==> SameWalks(linked, old(mem), pml4))
      ensures virt % HUGE_SIZE == 0 && old(Valid()) ==>
                (Maps(mem, old(mem), old(tab), old(pmm.Free()), pml4, virt, 2, HugeEntry(phys, flags)) <==>
                  old(CanMap(virt, 2)))
      ensures virt % HUGE_SIZE == 0 && old(Valid() && !CanMap(virt, 2)) ==> pmm.Free() == {}
      ensures virt % HUGE_SIZE == 0 && old(Valid()) && Pointer(linked, pml4, PathOf(virt), 2) !in tab.Values ==>
                Valid() && SameWalks(mem, old(mem), pml4) && (old(pmm.Free()) == {} ==> tab == old(tab))
      ensures old(Valid()) ==> TablesFrom(tab, old(tab), old(pmm.Free()))
      ensures old(Valid() && (virt % HUGE_SIZE == 0 ==> CanMap(virt, 2))) ==>
                Valid() &&
                (virt % HUGE_SIZE == 0 ==>
                  (forall v: u64 :: View(v) == if HugePageOf(v) == HugePageOf(virt) then Leaf(2, HugeEntry(phys, flags))
                                               else old(View(v))) &&
                  tab.Keys == old(tab.Keys) + Prefixes(PathOf(virt), 2) - {PathOf(virt)[..3]} &&
                  |pmm.Free()| == |old(pmm.Free())| - Missing(old(tab.Keys), PathOf(virt), 2))
    {
      hide Tree, TablesHeld, TablesFrom, Backed, OneLeaf, FreeSet, PaddingLocked, SameWalks, Lookup, WalkFrom, Prefixes,
           Missing, Maps, PathOf, HugePageOf;
      linked := mem;
      NoChange(mem, tab, pml4, pmm.Free());
      if virt % 0x20_0000 != 0 { return; }
      var p := PathOf(virt);
      var table := PageDirectory(p);
      linked := mem;
      ghost var linkedTab := tab;
      HugeEntryIsHuge(phys, flags);
      SetLeaf(table, p, 2, HugeEntry(phys, flags));
      ghost var before, beforeTab, free := old(mem), old(tab), old(pmm.Free());
      faithful := faithful && Maps(mem, before, beforeTab, free, pml4, virt, 2, HugeEntry(phys, flags));
      if old(Valid()) {
        TablesFromTwice(tab, linkedTab, old(tab), {}, old(pmm.Free()));
        if table !in linkedTab.Values { SameWalksTwice(mem, linked, old(mem), pml4); }
        if old(CanMap(virt, 2)) {
          LastPrefix(old(tab.Keys), p, 2);
          LeafIsPage(mem, linked, old(mem), pml4, virt, 2, HugeEntry(phys, flags));
          MapsShown(mem, tab, before, beforeTab, free, pml4, virt, 2, HugeEntry(phys, flags));
        } else if Maps(mem, before, beforeTab, free, pml4, virt, 2, HugeEntry(phys, flags)) {
          OnlyMappable(mem, before, beforeTab, free, pml4, virt, 2, HugeEntry(phys, flags));
        }
      }
    }

    // ----- the address space built at boot -----

    /** One step of the identity loop. */
    method IdentityMap(i: u64)
      requires i % HUGE_SIZE == 0 && i < MAPPED_SIZE && Ready() && (pmm.Free() == {} || faithful)
      requires faithful ==> Valid() && tab.Keys == IdentityTables(i / HUGE_SIZE) &&
                            forall v: u64 :: View(v) == BootView(v, i / HUGE_SIZE, 0)
      modifies this`mem, this`tab, this`faithful, pmm.bitmap
      ensures Ready() && (pmm.Free() == {} || faithful) && pmm.Free() <= old(pmm.Free())
      ensures faithful ==> old(faithful) && Valid() && tab.Keys == IdentityTables(i / HUGE_SIZE + 1) &&
                           TablesFrom(tab, old(tab), old(pmm.Free())) &&
                           |pmm.Free()| + |tab.Keys| == |old(pmm.Free())| + |old(tab.Keys)| &&
                           forall v: u64 :: View(v) == BootView(v, i / HUGE_SIZE + 1, 0)
      ensures old(faithful) && !faithful ==> |old(pmm.Free())| + |old(tab.Keys)| < |IdentityTables(i / HUGE_SIZE + 1)|
    {
      hide Tree, TablesHeld, TablesFrom, Backed, FreeSet, PaddingLocked, Lookup, Prefixes, Missing, BootView, PathOf,
           HugePageOf, IdentityTables, Maps;
      ghost var n := i / HUGE_SIZE;
      assert i == n * HUGE_SIZE;
      IdentityStep(n);
      IdentityTablesStep(n);
      MissingCounts(tab.Keys, PathOf(i), 2);
      ghost var linked := MapTableHuge(i, i, PTE_READWRITE);
    }

    method IdentityLoop()
      requires Valid() && faithful && tab.Keys == {[]} && forall v: u64 :: View(v) == Unmapped
      modifies this`mem, this`tab, this`faithful, pmm.bitmap
      ensures Ready() && (pmm.Free() == {} || faithful) && pmm.Free() <= old(pmm.Free())
      ensures faithful <==> |old(pmm.Free())| >= 5
      ensures faithful ==> Valid() && tab.Keys == IdentityTables(0x800) && |pmm.Free()| == |old(pmm.Free())| - 5 &&
                           TablesFrom(tab, old(tab), old(pmm.Free())) &&
                           forall v: u64 :: View(v) == BootView(v, 0x800, 0)
    {
      hide Tree, TablesHeld, TablesFrom, Backed, FreeSet, PaddingLocked, Lookup, BootView, IdentityTables, Manager.View;
      BootViewEmpty();
      IdentityTablesCount();
      NoChange(mem, tab, pml4, pmm.Free());
      var i: u64 := 0;
      while i < MAPPED_SIZE
        invariant i <= MAPPED_SIZE && i % HUGE_SIZE == 0 && Ready() && (pmm.Free() == {} || faithful)
        invariant pmm.Free() <= old(pmm.Free())
        invariant faithful ==> Valid() && tab.Keys == IdentityTables(i / HUGE_SIZE) &&
                               TablesFrom(tab, old(tab), old(pmm.Free())) &&
                               |pmm.Free()| + |tab.Keys| == |old(pmm.Free())| + 1 &&
                               forall v: u64 :: View(v) == BootView(v, i / HUGE_SIZE, 0)
        invariant !faithful ==> |old(pmm.Free())| + 1 < 6
      {
        ghost var tab1, free1 := tab, pmm.Free();
        IdentityMap(i);
        if faithful { TablesFromTwice(tab, tab1, old(tab), free1, old(pmm.Free())); }
        TablesGrow(i / HUGE_SIZE + 1, 0x800);
        SubsetSize(IdentityTables(i / HUGE_SIZE + 1), IdentityTables(0x800));
        i := i + 0x20_0000;
      }
    }

    /** One step of the kernel loop; the sum is taken in 64 bits. */
    method KernelMap(i: u64)
      requires i % HUGE_SIZE == 0 && i < MAPPED_SIZE && Ready() && (pmm.Free() == {} || faithful)
      requires faithful ==> Valid() && tab.Keys == BootTables(i / HUGE_SIZE) &&
                            forall v: u64 :: View(v) == BootView(v, 0x800, i / HUGE_SIZE)
      modifies this`mem, this`tab, this`faithful, pmm.bitmap
      ensures Ready() && (pmm.Free() == {} || faithful) && pmm.Free() <= old(pmm.Free())
      ensures faithful ==> old(faithful) && Valid() && tab.Keys == BootTables(i / HUGE_SIZE + 1) &&
                           TablesFrom(tab, old(tab), old(pmm.Free())) &&
                           |pmm.Free()| + |tab.Keys| == |old(pmm.Free())| + |old(tab.Keys)| &&
                           forall v: u64 :: View(v) == BootView(v, 0x800, i / HUGE_SIZE + 1)
      ensures old(faithful) && !faithful ==> |old(pmm.Free())| + |old(tab.Keys)| < |BootTables(i / HUGE_SIZE + 1)|
    {
      hide Tree, TablesHeld, TablesFrom, Backed, FreeSet, PaddingLocked, Lookup, Prefixes, Missing, BootView, PathOf,
           HugePageOf, BootTables, Maps, Wrap64;
      KernelStepAt(i);
      MissingCounts(tab.Keys, PathOf(Wrap64(i + KERNEL_BASE)), 2);
      ghost var linked := MapTableHuge(Wrap64(i + KERNEL_BASE), i, PTE_READWRITE);
    }

    /** The kernel loop, stopped after n steps of 2 MiB; the code has it run for all of MAPPED_SIZE. */
    method KernelLoop(n: nat)
      requires n <= 0x800 && Ready() && (pmm.Free() == {} || faithful)
      requires faithful ==> Valid() && tab.Keys == BootTables(0) && forall v: u64 :: View(v) == BootView(v, 0x800, 0)
      modifies this`mem, this`tab, this`faithful, pmm.bitmap
      ensures Ready() && (pmm.Free() == {} || faithful) && pmm.Free() <= old(pmm.Free())
      ensures faithful <==> old(faithful) && |old(pmm.Free())| + 6 >= BootTableCount(n)
      ensures faithful ==> Valid() && tab.Keys == BootTables(n) &&
                           |pmm.Free()| == |old(pmm.Free())| + 6 - BootTableCount(n) &&
                           TablesFrom(tab, old(tab), old(pmm.Free())) &&
                           forall v: u64 :: View(v) == BootView(v, 0x800, n)
    {
      hide Manager.Valid, TablesFrom, Backed, FreeSet, PaddingLocked, Lookup, BootView, BootTables, Manager.View;
      NoChange(mem, tab, pml4, pmm.Free());
      BootTablesCount(0);
      BootTablesCount(n);
      var i: u64 := 0;
      ghost var j: nat := 0;
      while i < n * 0x20_0000
        invariant j <= n && i == j * HUGE_SIZE && Ready() && (pmm.Free() == {} || faithful)
        invariant pmm.Free() <= old(pmm.Free())
        invariant faithful ==> old(faithful) && Valid() && tab.Keys == BootTables(j) &&
                               TablesFrom(tab, old(tab), old(pmm.Free())) &&
                               |pmm.Free()| + |tab.Keys| == |old(pmm.Free())| + 6 &&
                               forall v: u64 :: View(v) == BootView(v, 0x800, j)
        invariant !faithful ==> !old(faithful) || |old(pmm.Free())| + 6 < BootTableCount(n)
      {
        ghost var tab1, free1 := tab, pmm.Free();
        assert i / HUGE_SIZE == j;
        KernelMap(i);
        if faithful { TablesFromTwice(tab, tab1, old(tab), free1, old(pmm.Free())); }
        TablesGrow(j + 1, n);
        SubsetSize(BootTables(j + 1), BootTables(n));
        i, j := i + 0x20_0000, j + 1;
      }
      assert j == n;
    }

    /** One step of the stack loop. */
    method StackMap(i: nat, n: nat, ghost stack: seq<u64>) returns (ok: bool, ghost stack': seq<u64>)
      requires n <= 0x800 && i == |stack| < STACK_PAGES && Ready() && (pmm.Free() == {} || faithful)
      requires faithful ==> Valid() && tab.Keys == StackTables(n, |stack|) &&
                            PagesHeld(stack, tab, pmm.Free(), pmm.pageCount) &&
                            forall v: u64 :: View(v) == StackView(v, stack, n)
      modifies this`mem, this`tab, this`faithful, pmm.bitmap
      ensures Ready() && (pmm.Free() == {} || faithful) && pmm.Free() <= old(pmm.Free())
      ensures ok <==> old(pmm.Free()) != {}
      ensures !ok ==> stack' == stack && mem == old(mem) && tab == old(tab) && faithful == old(faithful)
      ensures ok ==> |stack'| == |stack| + 1 && faithful == (|stack| > 0 || |old(pmm.Free())| >= 4)
      ensures ok && faithful ==>
                Valid() && tab.Keys == StackTables(n, |stack'|) && PagesHeld(stack', tab, pmm.Free(), pmm.pageCount) &&
                |pmm.Free()| == |old(pmm.Free())| - (if |stack| == 0 then 4 else 1) &&
                TablesFrom(tab, old(tab), old(pmm.Free())) && forall v: u64 :: View(v) == StackView(v, stack', n)
    {
      hide Tree, TablesHeld, TablesFrom, Backed, FreeSet, PaddingLocked, Lookup, Prefixes, Missing, BootView, PathOf,
           PageOf, StackTables, StackView, PagesHeld, Maps;
      stack' := stack;
      ghost var free := pmm.Free();
      var spage := pmm.AllocPage();
      if spage == 0 { return false, stack; }
      StackPath(stack, spage, n);
      StackTablesStep(n, |stack|, PathOf(NextStackPage(|stack|)));
      FewerFree(mem, tab, free, pmm.Free(), pmm.pageCount);
      ghost var free1, tab1 := pmm.Free(), tab;
      ghost var linked := MapTable(STACK_BASE + i * PAGE_SIZE, spage, PTE_READWRITE);
      stack' := stack + [spage];
      if faithful {
        FromFewer(tab, tab1, free1, free);
        PagesHeldStep(stack, spage, tab, tab1, pmm.Free(), free, pmm.pageCount);
      }
      return true, stack';
    }

    /** The stack loop; it stops when the allocator is empty. One to three pages are too few for the tables. */
    method StackLoop(n: nat) returns (ok: bool, ghost stack: seq<u64>)
      requires n <= 0x800 && Ready() && (pmm.Free() == {} || faithful)
      requires faithful ==> Valid() && tab.Keys == BootTables(n) && forall v: u64 :: View(v) == BootView(v, 0x800, n)
      modifies this`mem, this`tab, this`faithful, pmm.bitmap
      ensures Ready() && pmm.Free() <= old(pmm.Free())
      ensures ok <==> |old(pmm.Free())| >= 12
      ensures faithful <==> old(faithful) && (|old(pmm.Free())| == 0 || |old(pmm.Free())| >= 4)
      ensures ok ==> Valid() && tab.Keys == StackTables(n, STACK_PAGES) && |pmm.Free()| == |old(pmm.Free())| - 12 &&
                     |stack| == STACK_PAGES && PagesHeld(stack, tab, pmm.Free(), pmm.pageCount) &&
                     TablesFrom(tab, old(tab), old(pmm.Free())) && forall v: u64 :: View(v) == StackView(v, stack, n)
    {
      hide Manager.Valid, Manager.View, TablesFrom, Backed, FreeSet, BootView, StackTables, StackView, PagesHeld;
      NoStackYet(n);
      NoStackTables(n);
      NoPagesHeld(tab, pmm.Free(), pmm.pageCount);
      NoChange(mem, tab, pml4, pmm.Free());
      stack := [];
      var i: nat := 0;
      while i < STACK_PAGES
        invariant i == |stack| <= STACK_PAGES && Ready() && pmm.Free() <= old(pmm.Free())
        invariant faithful ==> old(faithful) && Valid() && tab.Keys == StackTables(n, i) &&
                               TablesFrom(tab, old(tab), old(pmm.Free())) &&
                               PagesHeld(stack, tab, pmm.Free(), pmm.pageCount) &&
                               |pmm.Free()| + i + (if i == 0 then 0 else 3) == |old(pmm.Free())| &&
                               forall v: u64 :: View(v) == StackView(v, stack, n)
        invariant !faithful ==> pmm.Free() == {} && i < STACK_PAGES && (old(faithful) ==> 1 <= |old(pmm.Free())| <= 3)
      {
        ghost var free1, tab1 := pmm.Free(), tab;
        var ok';
        ok', stack := StackMap(i, n, stack);
        if !ok' { return false, stack; }
        if faithful { TablesFromTwice(tab, tab1, old(tab), free1, old(pmm.Free())); }
        i := i + 1;
      }
      return true, stack;
    }

    /** vmm_init up to the switch of address space, with the kernel loop stopped after n steps. It succeeds exactly with
        pages for all tables and the stack. Its calls all map their pages unless it runs dry in a loop, or between
        taking the first stack page and mapping it. */
    method Init(n: nat) returns (r: InitResult, ghost stack: seq<u64>)
      requires n <= 0x800 && Ready()
      modifies this`mem, this`pml4, this`tab, this`faithful, pmm.bitmap
      ensures r == VmmOk <==> |old(pmm.Free())| >= BootTableCount(n) + 12
      ensures faithful <==> var pages := |old(pmm.Free())|;
                            pages == 0 || pages == BootTableCount(n) || pages >= BootTableCount(n) + 4
      ensures r == VmmOk ==>
                Valid() && tab.Keys == StackTables(n, STACK_PAGES) && pmm.Free() <= old(pmm.Free()) &&
                |pmm.Free()| == |old(pmm.Free())| - BootTableCount(n) - 12 && TablesFrom(tab, map[], old(pmm.Free())) &&
                |stack| == STACK_PAGES && PagesHeld(stack, tab, pmm.Free(), pmm.pageCount) &&
                forall v: u64 :: View(v) == StackView(v, stack, n)
    {
      hide Tree, FreeSet, PaddingLocked, Lookup, BootView, PageOf, StackTables, StackView, PagesHeld, BootTables,
           IdentityTables, TablesFrom;
      stack := [];
      faithful := true;
      BootTablesCount(n);
      var page := pmm.AllocPage();
      if page == 0 { return VmmOutOfMemory, stack; }
      pml4 := page;
      mem := mem[pml4 := EMPTY_TABLE];
      tab := map[[] := pml4];
      EmptyTree(mem, pml4);
      OneTable(page, old(pmm.Free()));
      ghost var tab0, free0 := tab, pmm.Free();
      IdentityLoop();
      BootTablesCount(0);
      ghost var tab1, free1 := tab, pmm.Free();
      KernelLoop(n);
      ghost var tab2, free2 := tab, pmm.Free();
      var ok;
      ok, stack := StackLoop(n);
      if ok {
        TablesFromTwice(tab, tab2, tab1, free2, free1);
        TablesFromTwice(tab, tab1, tab0, free1, free0);
        TablesFromTwice(tab, tab0, map[], free0, old(pmm.Free()));
      }
      return if ok then VmmOk else VmmOutOfMemory, stack;
    }
  }
}
