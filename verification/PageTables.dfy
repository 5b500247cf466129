/** The page tables as the processor reads them (section 5.3 of the AMD64 Architecture Programmer's Manual
    Volume 2), and the tree of table pages that makes them act as a map. */
module PageTables {
  import opened Bits
  import opened Pmm

  const HUGE_SIZE: nat := 0x200000

  function Zeros(n: nat): (s: seq<u64>)
    ensures |s| == n && forall i :: 0 <= i < n ==> s[i] == 0
  {
    if n == 0 then [] else Zeros(n - 1) + [0]
  }

  type Table = t: seq<u64> | |t| == 512 witness Zeros(512)
  type Memory = map<nat, Table>
  type Index = i: nat | i < 512
  type Path = seq<Index>

  const EMPTY_TABLE: Table := Zeros(512)

  // The fields of an entry: bit 0, bit 7 and bits 12 to 51.
  predicate Present(e: u64) { e % 2 == 1 }
  predicate Huge(e: u64) { e / 0x80 % 2 == 1 }
  function Target(e: u64): nat { e / 0x1000 % 0x100_0000_0000 * 0x1000 }

  /** An entry of a table `level` levels above the pages that ends the walk. */
  predicate IsLeaf(e: u64, level: nat) {
    level == 1 || (level <= 3 && Huge(e))
  }

  // ----- the processor's walk -----

  datatype Walk = Unmapped | Leaf(level: nat, entry: u64) | NoMemory

  /** The walk from table t at depth k along the table indices of an address. */
  function WalkFrom(mem: Memory, t: nat, path: Path, k: nat): Walk
    requires |path| == 4 && k < 4
    decreases 4 - k
  {
    if t !in mem then NoMemory
    else
      var e := mem[t][path[k]];
      if !Present(e) then Unmapped
      else if IsLeaf(e, 4 - k) then Leaf(4 - k, e)
      else if k == 3 then NoMemory
      else WalkFrom(mem, Target(e), path, k + 1)
  }

  /** The four table indices of a virtual address; the upper 16 bits play no part. */
  function PathOf(virt: u64): (p: Path)
    ensures |p| == 4
  {
    [virt / 0x80_0000_0000 % 512, virt / 0x4000_0000 % 512, virt / 0x20_0000 % 512, virt / 0x1000 % 512]
  }

  /** The number of the 4 KiB page of an address within its 48 bits. */
  function PageOf(virt: u64): nat { virt / 0x1000 % 0x10_0000_0000 }

  /** The number of the 2 MiB page of an address within its 48 bits. */
  function HugePageOf(virt: u64): nat { virt / 0x20_0000 % 0x800_0000 }

  function Lookup(mem: Memory, root: nat, virt: u64): Walk {
    WalkFrom(mem, root, PathOf(virt), 0)
  }

  lemma PathsSplitPages(u: u64, v: u64)
    ensures PathOf(u) == PathOf(v) <==> PageOf(u) == PageOf(v)
    ensures PathOf(u)[..3] == PathOf(v)[..3] <==> HugePageOf(u) == HugePageOf(v)
  {
    var p, q := PathOf(u), PathOf(v);
    SplitPage(u); SplitPage(v);
    assert p == q <==> p[0] == q[0] && p[1] == q[1] && p[2] == q[2] && p[3] == q[3];
    assert p[..3] == q[..3] <==> p[0] == q[0] && p[1] == q[1] && p[2] == q[2];
  }

  lemma SplitPage(v: u64)
    ensures var i: nat, j: nat, k: nat, l: nat := PathOf(v)[0], PathOf(v)[1], PathOf(v)[2], PathOf(v)[3];
            PageOf(v) == HugePageOf(v) * 512 + l && HugePageOf(v) == (i * 512 + j) * 512 + k
  {
    var a, b, c := v / 0x1000, v / 0x20_0000, v / 0x4000_0000;
    assert a / 512 == b && b / 512 == c && c / 512 == v / 0x80_0000_0000;
    SplitIndex(a, 0x800_0000); SplitIndex(b, 0x4_0000); SplitIndex(c, 512);
  }

  /** The four indices and the offset spell out the low 48 bits of an address, highest first. */
  lemma IndicesSpell(v: u64)
    ensures var p := PathOf(v);
            v % 0x1_0000_0000_0000 == (((p[0] * 512 + p[1]) * 512 + p[2]) * 512 + p[3]) * 4096 + v % 4096
  {
    hide PathOf;
    SplitPage(v);
    assert v == v / 0x1000 * 0x1000 + v % 0x1000;
    var q := v / 0x1000;
    assert q == q / 0x10_0000_0000 * 0x10_0000_0000 + PageOf(v);
  }

  lemma SplitIndex(x: nat, m: nat)
    requires m > 0
    ensures x % (512 * m) == (x / 512 % m) * 512 + x % 512
  {
    var q, r := x / 512 / m, x / 512 % m;
    assert x / 512 == q * m + r;
    assert x == q * (512 * m) + (r * 512 + x % 512) by { assert 512 * (q * m) == q * (512 * m); }
    DivUnique(x, 512 * m, q, r * 512 + x % 512);
  }

  // ----- the tree of table pages -----

  /** tab gives the table page at each path of indices from the root. */
  ghost predicate Tree(mem: Memory, tab: map<Path, nat>, root: nat) {
    [] in tab && tab[[]] == root &&
    (forall p {:trigger Node(mem, tab, p)} :: p in tab ==> Node(mem, tab, p))
  }

  lemma RootInTree(mem: Memory, tab: map<Path, nat>, root: nat)
    requires Tree(mem, tab, root)
    ensures [] in tab && tab[[]] == root
  {
  }

  ghost predicate Node(mem: Memory, tab: map<Path, nat>, p: Path)
    requires p in tab
  {
    tab[p] in mem && |p| <= 3 && tab[p] % PAGE_SIZE == 0 && 0 < tab[p] < TOP_LIMIT &&
    (p != [] ==> p[..|p| - 1] in tab) &&
    (forall q {:trigger tab[q]} :: q in tab && tab[q] == tab[p] ==> q == p) &&
    (|p| < 3 ==> forall i: Index {:trigger Linked(mem, tab, p, i)} :: Linked(mem, tab, p, i))
  }

  /** An entry of an inner table points to the child table exactly when there is one; other than that it is zero or
      a 2 MiB page. */
  ghost predicate Linked(mem: Memory, tab: map<Path, nat>, p: Path, i: Index)
    requires p in tab && tab[p] in mem
  {
    var e := mem[tab[p]][i];
    if p + [i] in tab then Points(e, tab[p + [i]])
    else e == 0 || (|p| == 2 && Present(e) && Huge(e))
  }

  ghost predicate Points(e: u64, page: nat) {
    Present(e) && !Huge(e) && Target(e) == page
  }

  /** Every prefix of a path in the tree is in the tree. */
  lemma {:induction false} PrefixInTree(mem: Memory, tab: map<Path, nat>, root: nat, path: Path, k: nat, n: nat)
    requires Tree(mem, tab, root) && k <= n <= |path| && path[..n] in tab
    ensures path[..k] in tab
    decreases n
  {
    if k < n {
      assert Node(mem, tab, path[..n]);
      assert path[..n][..n - 1] == path[..n - 1];
      PrefixInTree(mem, tab, root, path, k, n - 1);
    }
  }

  /** A walk follows the tree as far as the tree goes. */
  lemma {:induction false} WalkFollowsTree(mem: Memory, tab: map<Path, nat>, root: nat, path: Path, k: nat)
    requires Tree(mem, tab, root) && |path| == 4 && k <= 3 && path[..k] in tab
    ensures WalkFrom(mem, root, path, 0) == WalkFrom(mem, tab[path[..k]], path, k)
  {
    if k == 0 {
      assert path[..0] == [];
    } else {
      var q := path[..k - 1];
      PrefixInTree(mem, tab, root, path, k - 1, k);
      WalkFollowsTree(mem, tab, root, path, k - 1);
      assert q + [path[k - 1]] == path[..k];
      assert Node(mem, tab, q) && Linked(mem, tab, q, path[k - 1]);
    }
  }

  lemma ChildPaths(p: Path, i: Index, q: Path, j: Index)
    ensures q + [j] == p + [i] <==> q == p && j == i
  {
    if q + [j] == p + [i] {
      assert (q + [j])[..|q|] == q && (p + [i])[..|p|] == p && (q + [j])[|q|] == j;
    }
  }

  // ----- a new empty table -----

  function AddedTable(mem: Memory, t: nat, i: Index, page: nat, e: u64): Memory
    requires t in mem
  {
    var m := mem[page := EMPTY_TABLE];
    m[t := m[t][i := e]]
  }

  /** A fresh page may be linked into an empty entry of an inner table. */
  ghost predicate CanAdd(mem: Memory, tab: map<Path, nat>, root: nat, p: Path, i: Index, page: nat, e: u64) {
    Tree(mem, tab, root) && p in tab && |p| < 3 && tab[p] in mem && !Present(mem[tab[p]][i]) &&
    page !in tab.Values && page % PAGE_SIZE == 0 && 0 < page < TOP_LIMIT && Points(e, page)
  }

  /** Linking a fresh zeroed page into an empty entry keeps the tree, and no walk notices. */
  lemma AddTable(mem: Memory, tab: map<Path, nat>, root: nat, p: Path, i: Index, page: nat, e: u64)
    requires CanAdd(mem, tab, root, p, i, page, e)
    ensures Tree(AddedTable(mem, tab[p], i, page, e), tab[p + [i] := page], root)
    ensures forall path: Path :: |path| == 4 ==>
              WalkFrom(AddedTable(mem, tab[p], i, page, e), root, path, 0) == WalkFrom(mem, root, path, 0)
  {
    var mem', tab' := AddedTable(mem, tab[p], i, page, e), tab[p + [i] := page];
    assert Node(mem, tab, p) && Linked(mem, tab, p, i);
    forall q | q in tab' ensures Node(mem', tab', q) {
      if q == p + [i] { NewNode(mem, tab, root, p, i, page, e); } else { OldNode(mem, tab, root, p, i, page, e, q); }
    }
    forall path: Path | |path| == 4
      ensures WalkFrom(mem', root, path, 0) == WalkFrom(mem, root, path, 0)
    {
      assert path[..0] == [];
      AddTableWalk(mem, tab, root, p, i, page, e, path, 0);
    }
  }

  lemma NewNode(mem: Memory, tab: map<Path, nat>, root: nat, p: Path, i: Index, page: nat, e: u64)
    requires CanAdd(mem, tab, root, p, i, page, e)
    ensures Node(AddedTable(mem, tab[p], i, page, e), tab[p + [i] := page], p + [i])
  {
    var mem', tab', q := AddedTable(mem, tab[p], i, page, e), tab[p + [i] := page], p + [i];
    assert Node(mem, tab, p) && Linked(mem, tab, p, i) && q !in tab;
    assert q[..|q| - 1] == p && tab'[q] == page && page != tab[p];
    forall j: Index ensures |q| < 3 ==> Linked(mem', tab', q, j) {
      NoOrphan(mem, tab, root, q, j);
      assert |q + [j]| != |q|;
      EmptyEntry(j);
      assert mem'[page] == EMPTY_TABLE;
    }
  }

  lemma NoOrphan(mem: Memory, tab: map<Path, nat>, root: nat, q: Path, j: Index)
    requires Tree(mem, tab, root) && q !in tab
    ensures q + [j] !in tab
  {
    assert (q + [j])[..|q + [j]| - 1] == q;
    assert q + [j] in tab ==> Node(mem, tab, q + [j]);
  }

  lemma OldNode(mem: Memory, tab: map<Path, nat>, root: nat, p: Path, i: Index, page: nat, e: u64, q: Path)
    requires CanAdd(mem, tab, root, p, i, page, e) && q in tab && p + [i] !in tab
    ensures Node(AddedTable(mem, tab[p], i, page, e), tab[p + [i] := page], q)
  {
    var mem', tab' := AddedTable(mem, tab[p], i, page, e), tab[p + [i] := page];
    assert Node(mem, tab, q) && tab'[q] == tab[q] != page;
    forall j: Index ensures |q| < 3 ==> Linked(mem', tab', q, j) {
      ChildPaths(p, i, q, j);
      if |q| < 3 {
        assert Linked(mem, tab, q, j);
        if q == p && j == i {
        } else {
          assert mem'[tab[q]][j] == mem[tab[q]][j];
        }
      }
    }
  }

  lemma EmptyEntry(j: Index)
    ensures EMPTY_TABLE[j] == 0
  {
  }

  lemma {:induction false} AddTableWalk(mem: Memory, tab: map<Path, nat>, root: nat, p: Path, i: Index, page: nat,
                                        e: u64,
                                        path: Path, k: nat)
    requires CanAdd(mem, tab, root, p, i, page, e) && |path| == 4 && k <= 3 && path[..k] in tab
    ensures WalkFrom(AddedTable(mem, tab[p], i, page, e), tab[path[..k]], path, k)
         == WalkFrom(mem, tab[path[..k]], path, k)
    decreases 4 - k
  {
    var q := path[..k];
    assert Node(mem, tab, q);
    if q == p && path[k] == i {
      EmptyEntry(path[k + 1]);
    } else if k < 3 {
      assert q + [path[k]] == path[..k + 1];
      assert Linked(mem, tab, q, path[k]);
      if path[..k + 1] in tab {
        AddTableWalk(mem, tab, root, p, i, page, e, path, k + 1);
      }
    }
  }

  // ----- writing a page entry -----

  function Written(mem: Memory, t: nat, i: Index, e: u64): Memory
    requires t in mem
  {
    mem[t := mem[t][i := e]]
  }

  ghost predicate CanWrite(mem: Memory, tab: map<Path, nat>, root: nat, p: Path, i: Index, e: u64) {
    Tree(mem, tab, root) && p in tab && 2 <= |p| <= 3 && tab[p] in mem && Present(e) && IsLeaf(e, 4 - |p|)
  }

  /** Writing a leaf changes exactly the walks that go through its entry. A 2 MiB leaf written over a table drops
      that table from the tree. */
  lemma WriteLeaf(mem: Memory, tab: map<Path, nat>, root: nat, p: Path, i: Index, e: u64)
    requires CanWrite(mem, tab, root, p, i, e)
    ensures Tree(Written(mem, tab[p], i, e), tab - {p + [i]}, root)
    ensures forall path: Path :: |path| == 4 ==>
              WalkFrom(Written(mem, tab[p], i, e), root, path, 0)
              == if path[..|p| + 1] == p + [i] then Leaf(4 - |p|, e) else WalkFrom(mem, root, path, 0)
  {
    var mem', tab' := Written(mem, tab[p], i, e), tab - {p + [i]};
    forall q | q in tab' ensures Node(mem', tab', q) {
      WriteLeafNode(mem, tab, root, p, i, e, q);
    }
    forall path: Path | |path| == 4
      ensures WalkFrom(mem', root, path, 0)
              == if path[..|p| + 1] == p + [i] then Leaf(4 - |p|, e) else WalkFrom(mem, root, path, 0)
    {
      assert path[..0] == [];
      WriteLeafWalk(mem, tab, root, p, i, e, path, 0);
    }
  }

  lemma WriteLeafNode(mem: Memory, tab: map<Path, nat>, root: nat, p: Path, i: Index, e: u64, q: Path)
    requires CanWrite(mem, tab, root, p, i, e) && q in tab && q != p + [i]
    ensures Node(Written(mem, tab[p], i, e), tab - {p + [i]}, q)
  {
    var mem', tab' := Written(mem, tab[p], i, e), tab - {p + [i]};
    assert Node(mem, tab, q);
    if q != [] { assert |q[..|q| - 1]| < 3 <= |p + [i]|; }
    forall j: Index ensures |q| < 3 ==> Linked(mem', tab', q, j) {
      if |q| < 3 { assert Linked(mem, tab, q, j); }
      ChildPaths(p, i, q, j);
    }
  }

  lemma {:induction false} WriteLeafWalk(mem: Memory, tab: map<Path, nat>, root: nat, p: Path, i: Index, e: u64,
                                         path: Path, k: nat)
    requires CanWrite(mem, tab, root, p, i, e) && |path| == 4 && k <= 3 && path[..k] in tab
    requires k > |p| ==> path[..|p| + 1] != p + [i]
    ensures WalkFrom(Written(mem, tab[p], i, e), tab[path[..k]], path, k)
         == if path[..|p| + 1] == p + [i] then Leaf(4 - |p|, e) else WalkFrom(mem, tab[path[..k]], path, k)
    decreases 4 - k
  {
    var q := path[..k];
    assert Node(mem, tab, q);
    assert q + [path[k]] == path[..k + 1];
    ChildPaths(p, i, q, path[k]);
    if path[..|p| + 1] == p + [i] {
      assert path[..|p|] == path[..|p| + 1][..|p|] == p;
      assert path[|p|] == path[..|p| + 1][|p|] == i;
      if k < |p| {
        PrefixInTree(mem, tab, root, path, k + 1, |p|);
        assert Linked(mem, tab, q, path[k]);
        WriteLeafWalk(mem, tab, root, p, i, e, path, k + 1);
      }
    } else if k < 3 {
      assert Linked(mem, tab, q, path[k]);
      if path[..k + 1] in tab {
        WriteLeafWalk(mem, tab, root, p, i, e, path, k + 1);
      }
    }
  }

  // ----- counting the tables on a path -----

  function Absent(keys: set<Path>, p: Path): nat { if p in keys then 0 else 1 }

  /** The paths of the tables on the way to a page directory (n == 2) or a page table (n == 3). */
  function Prefixes(path: Path, n: nat): set<Path>
    requires 2 <= n <= 3 <= |path|
  {
    {path[..1], path[..2]} + if n == 3 then {path[..3]} else {}
  }

  /** How many of those tables do not exist yet. */
  function Missing(keys: set<Path>, path: Path, n: nat): nat
    requires 2 <= n <= 3 <= |path|
  {
    Absent(keys, path[..1]) + Absent(keys, path[..2]) + if n == 3 then Absent(keys, path[..3]) else 0
  }

  /** Adding the tables of a path adds exactly the missing ones. */
  lemma MissingCounts(keys: set<Path>, path: Path, n: nat)
    requires 2 <= n <= 3 <= |path|
    ensures |keys + Prefixes(path, n)| == |keys| + Missing(keys, path, n)
  {
    var p, q, r := path[..1], path[..2], path[..3];
    assert |p| != |q| && |q| != |r| && |p| != |r|;
    AddPath(keys, p);
    AddPath(keys + {p}, q);
    AddPath(keys + {p} + {q}, r);
    assert keys + Prefixes(path, n) == if n == 2 then keys + {p} + {q} else keys + {p} + {q} + {r};
  }

  lemma AllPrefixes(keys: set<Path>, path: Path)
    requires |path| == 4
    ensures Missing(keys, path, 3) == 0 ==> keys + Prefixes(path, 3) == keys
    ensures keys + Prefixes(path, 2) == keys && path[..3] in keys ==> keys + Prefixes(path, 3) == keys
  {
  }

  lemma ThirdTable(keys: set<Path>, path: Path)
    requires |path| == 4
    ensures keys + Prefixes(path, 2) + {path[..3]} == keys + Prefixes(path, 3)
    ensures Missing(keys, path, 3) == Missing(keys, path, 2) + Absent(keys + Prefixes(path, 2), path[..3])
  {
    assert |path[..1]| == 1 && |path[..2]| == 2 && |path[..3]| == 3;
  }

  lemma AddPath(keys: set<Path>, p: Path)
    ensures |keys + {p}| == |keys| + Absent(keys, p)
  {
    if p in keys { assert keys + {p} == keys; }
  }

  lemma {:induction false} SubsetSize<T>(a: set<T>, b: set<T>)
    requires a <= b
    ensures |a| <= |b|
    ensures |a| == |b| ==> a == b
  {
    assert b == a + (b - a);
  }
}
