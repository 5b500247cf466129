/** The block operations of the C library on one memory, whose addresses are the indices of an array of bytes. Word
    accesses demand their natural alignment. */
module Memory {

  import opened Bits

  // ----- words and their bytes, lowest first -----

  function Word(b0: byte, b1: byte, b2: byte, b3: byte): u32 {
    b0 + 0x100 * b1 + 0x1_0000 * b2 + 0x100_0000 * b3
  }

  function Byte0(w: u32): byte { w % 0x100 }
  function Byte1(w: u32): byte { w / 0x100 % 0x100 }
  function Byte2(w: u32): byte { w / 0x1_0000 % 0x100 }
  function Byte3(w: u32): byte { w / 0x100_0000 }

  lemma WordBytes(b0: byte, b1: byte, b2: byte, b3: byte)
    ensures var w := Word(b0, b1, b2, b3); Byte0(w) == b0 && Byte1(w) == b1 && Byte2(w) == b2 && Byte3(w) == b3
  {
    var w := Word(b0, b1, b2, b3);
    assert w == b0 + 0x100 * (b1 + 0x100 * (b2 + 0x100 * b3));
    assert w / 0x100 == b1 + 0x100 * (b2 + 0x100 * b3);
    assert w / 0x1_0000 == b2 + 0x100 * b3;
  }

  /** (w >> 32 - 8 * r) | (x << 8 * r) in 32 bits, for the three values of r. */
  function Merge(w: u32, x: u32, r: nat): nat
    requires 1 <= r <= 3
  {
    if r == 1 then Or(w / 0x100_0000, x * 0x100 % 0x1_0000_0000)
    else if r == 2 then Or(w / 0x1_0000, x * 0x1_0000 % 0x1_0000_0000)
    else Or(w / 0x100, x * 0x100_0000 % 0x1_0000_0000)
  }

  /** The two halves of a merge do not overlap. */
  lemma OrParts(high: nat, low: nat, k: nat, unit: nat)
    requires unit == Pow2(k) && low < unit
    ensures Or(low, high * unit) == high * unit + low
  {
    ShiftsDivideBy(high, k, unit);
    OrDisjoint(high, low, k);
    OrCommutes(low, high * unit);
  }

  lemma BytePowers()
    ensures Pow2(8) == 0x100 && Pow2(16) == 0x1_0000 && Pow2(24) == 0x100_0000 && Pow2(32) == 0x1_0000_0000
  {
    PowersOf16();
    PowSum(16, 8);
    PowSum(16, 16);
  }

  lemma Merge1(a0: byte, a1: byte, a2: byte, a3: byte, b0: byte, b1: byte, b2: byte, b3: byte)
    ensures Merge(Word(a0, a1, a2, a3), Word(b0, b1, b2, b3), 1) == Word(a3, b0, b1, b2)
  {
    hide Or, Pow2;
    var w: nat, x: nat, high: nat := Word(a0, a1, a2, a3), Word(b0, b1, b2, b3), b0 + 0x100 * b1 + 0x1_0000 * b2;
    assert w / 0x100_0000 == a3;
    assert x * 0x100 == high * 0x100 + 0x1_0000_0000 * b3;
    assert x * 0x100 % 0x1_0000_0000 == high * 0x100;
    BytePowers();
    OrParts(high, a3, 8, 0x100);
  }

  lemma Merge2(a0: byte, a1: byte, a2: byte, a3: byte, b0: byte, b1: byte, b2: byte, b3: byte)
    ensures Merge(Word(a0, a1, a2, a3), Word(b0, b1, b2, b3), 2) == Word(a2, a3, b0, b1)
  {
    hide Or, Pow2;
    var w: nat, x: nat := Word(a0, a1, a2, a3), Word(b0, b1, b2, b3);
    var low: nat, high: nat := a2 + 0x100 * a3, b0 + 0x100 * b1;
    assert w / 0x1_0000 == low;
    assert x * 0x1_0000 == high * 0x1_0000 + 0x1_0000_0000 * (b2 + 0x100 * b3);
    assert x * 0x1_0000 % 0x1_0000_0000 == high * 0x1_0000;
    BytePowers();
    OrParts(high, low, 16, 0x1_0000);
  }

  lemma Merge3(a0: byte, a1: byte, a2: byte, a3: byte, b0: byte, b1: byte, b2: byte, b3: byte)
    ensures Merge(Word(a0, a1, a2, a3), Word(b0, b1, b2, b3), 3) == Word(a1, a2, a3, b0)
  {
    hide Or, Pow2;
    var w: nat, x: nat, low: nat := Word(a0, a1, a2, a3), Word(b0, b1, b2, b3), a1 + 0x100 * a2 + 0x1_0000 * a3;
    assert w / 0x100 == low;
    assert x * 0x100_0000 == b0 * 0x100_0000 + 0x1_0000_0000 * (b1 + 0x100 * b2 + 0x1_0000 * b3);
    assert x * 0x100_0000 % 0x1_0000_0000 == b0 * 0x100_0000;
    BytePowers();
    OrParts(b0, low, 24, 0x100_0000);
  }

  function WordAt(mem: seq<byte>, p: nat): u32
    requires p + 4 <= |mem|
  {
    Word(mem[p], mem[p + 1], mem[p + 2], mem[p + 3])
  }

  lemma MergedWord(mem: seq<byte>, p: nat, r: nat)
    requires 1 <= r <= 3 && p + 8 <= |mem|
    ensures Merge(WordAt(mem, p), WordAt(mem, p + 4), r) == WordAt(mem, p + 4 - r)
  {
    hide Merge, Word;
    if r == 1 {
      Merge1(mem[p], mem[p + 1], mem[p + 2], mem[p + 3], mem[p + 4], mem[p + 5], mem[p + 6], mem[p + 7]);
    } else if r == 2 {
      Merge2(mem[p], mem[p + 1], mem[p + 2], mem[p + 3], mem[p + 4], mem[p + 5], mem[p + 6], mem[p + 7]);
    } else {
      Merge3(mem[p], mem[p + 1], mem[p + 2], mem[p + 3], mem[p + 4], mem[p + 5], mem[p + 6], mem[p + 7]);
    }
  }

  method Load32(m: array<byte>, p: nat) returns (w: u32)
    requires p % 4 == 0 && p + 4 <= m.Length
    ensures w == WordAt(m[..], p)
  {
    w := Word(m[p], m[p + 1], m[p + 2], m[p + 3]);
  }

  method Store32(m: array<byte>, p: nat, w: u32)
    requires p % 4 == 0 && p + 4 <= m.Length
    modifies m
    ensures m[..] == old(m[..p]) + [Byte0(w), Byte1(w), Byte2(w), Byte3(w)] + old(m[p + 4..])
  {
    m[p], m[p + 1], m[p + 2], m[p + 3] := Byte0(w), Byte1(w), Byte2(w), Byte3(w);
  }

  // ----- memcpy -----

  /** The memory with n bytes from src put at dest. */
  function Copied(mem: seq<byte>, dest: nat, src: nat, n: nat): seq<byte>
    requires dest + n <= |mem| && src + n <= |mem|
  {
    mem[..dest] + mem[src..src + n] + mem[dest + n..]
  }

  /** A copy between disjoint ranges of the memory as it was before. */
  datatype Job = Job(before: seq<byte>, dest: nat, src: nat, n: nat) {
    predicate Valid() {
      dest + n <= |before| && src + n <= |before| && (dest + n <= src || src + n <= dest)
    }
  }

  /** The first k bytes are copied and nothing else has changed. */
  ghost predicate Done(now: seq<byte>, job: Job, k: nat) {
    job.Valid() && k <= job.n && now == Copied(job.before, job.dest, job.src, k)
  }

  lemma NextByte(job: Job, k: nat)
    requires job.Valid() && k < job.n
    ensures var c := Copied(job.before, job.dest, job.src, k);
            |c| == |job.before| && c[job.src + k] == job.before[job.src + k] &&
            c[job.dest + k := job.before[job.src + k]] == Copied(job.before, job.dest, job.src, k + 1)
  {
    var mem, d, s := job.before, job.dest, job.src;
    assert mem[s..s + k + 1] == mem[s..s + k] + [mem[s + k]];
    assert mem[d + k..] == [mem[d + k]] + mem[d + k + 1..];
  }

  lemma NextWord(job: Job, k: nat, w: u32)
    requires job.Valid() && k + 4 <= job.n && w == WordAt(job.before, job.src + k)
    ensures var c, d := Copied(job.before, job.dest, job.src, k), job.dest + k;
            |c| == |job.before| &&
            c[..d] + [Byte0(w), Byte1(w), Byte2(w), Byte3(w)] + c[d + 4..] ==
              Copied(job.before, job.dest, job.src, k + 4)
  {
    hide Word, Byte0, Byte1, Byte2, Byte3;
    var s := job.before[job.src + k..];
    WordBytes(s[0], s[1], s[2], s[3]);
  }

  /** The source is out of reach of the copy. */
  lemma SourceIntact(job: Job, k: nat, p: nat)
    requires job.Valid() && k <= job.n && job.src <= p && p + 4 <= job.src + job.n
    ensures var c := Copied(job.before, job.dest, job.src, k);
            |c| == |job.before| && WordAt(c, p) == WordAt(job.before, p)
  {
    hide Word;
  }

  /** A copy with n bytes left to do, the next one from s to d. */
  ghost predicate At(now: seq<byte>, job: Job, d: nat, s: nat, n: nat) {
    n <= job.n && d == job.dest + job.n - n && s == job.src + job.n - n && Done(now, job, job.n - n)
  }

  /** *d++ = *s++ */
  method Copy1(m: array<byte>, d: nat, s: nat, ghost n: nat, ghost job: Job)
    requires At(m[..], job, d, s, n) && n >= 1
    modifies m
    ensures At(m[..], job, d + 1, s + 1, n - 1)
  {
    NextByte(job, job.n - n);
    m[d] := m[s];
  }

  method Copy2(m: array<byte>, d: nat, s: nat, ghost n: nat, ghost job: Job)
    requires At(m[..], job, d, s, n) && n >= 2
    modifies m
    ensures At(m[..], job, d + 2, s + 2, n - 2)
  {
    hide At;
    Copy1(m, d, s, n, job);
    Copy1(m, d + 1, s + 1, n - 1, job);
  }

  method Copy4(m: array<byte>, d: nat, s: nat, ghost n: nat, ghost job: Job)
    requires At(m[..], job, d, s, n) && n >= 4
    modifies m
    ensures At(m[..], job, d + 4, s + 4, n - 4)
  {
    hide At;
    Copy2(m, d, s, n, job);
    Copy2(m, d + 2, s + 2, n - 2, job);
  }

  method Copy8(m: array<byte>, d: nat, s: nat, ghost n: nat, ghost job: Job)
    requires At(m[..], job, d, s, n) && n >= 8
    modifies m
    ensures At(m[..], job, d + 8, s + 8, n - 8)
  {
    hide At;
    Copy4(m, d, s, n, job);
    Copy4(m, d + 4, s + 4, n - 4, job);
  }

  /** *(u32 *) d = *(u32 *) s */
  method CopyWord(m: array<byte>, d: nat, s: nat, ghost n: nat, ghost job: Job)
    requires At(m[..], job, d, s, n) && n >= 4 && d % 4 == 0 && s % 4 == 0
    modifies m
    ensures At(m[..], job, d + 4, s + 4, n - 4)
  {
    hide Copied, WordAt;
    SourceIntact(job, job.n - n, s);
    var w := Load32(m, s);
    NextWord(job, job.n - n, w);
    Store32(m, d, w);
  }

  method CopyWords2(m: array<byte>, d: nat, s: nat, ghost n: nat, ghost job: Job)
    requires At(m[..], job, d, s, n) && n >= 8 && d % 4 == 0 && s % 4 == 0
    modifies m
    ensures At(m[..], job, d + 8, s + 8, n - 8)
  {
    hide At;
    CopyWord(m, d, s, n, job);
    CopyWord(m, d + 4, s + 4, n - 4, job);
  }

  /** x = *(u32 *) (s + r); *(u32 *) d = the merge of w and x, where w is the source word that ends at s + r. */
  method CopyShifted(m: array<byte>, d: nat, s: nat, ghost n: nat, r: nat, w: u32, ghost job: Job) returns (x: u32)
    requires At(m[..], job, d, s, n) && n >= 4 + r && 1 <= r <= 3 && d % 4 == 0 && (s + r) % 4 == 0
    requires Carries(job, s, n, r, w)
    modifies m
    ensures At(m[..], job, d + 4, s + 4, n - 4) && Carries(job, s + 4, n - 4, r, x)
  {
    hide Merge, Word, Copied, WordAt;
    SourceIntact(job, job.n - n, s + r);
    x := Load32(m, s + r);
    MergedWord(job.before, s + r - 4, r);
    NextWord(job, job.n - n, Merge(w, x, r));
    Store32(m, d, Merge(w, x, r));
  }

  /** The carried word: the source bytes from 4 - r behind s to r past it. */
  ghost predicate Carries(job: Job, s: nat, n: nat, r: nat, w: u32) {
    job.n >= n + (4 - r) && 4 <= s + r <= |job.before| && w == WordAt(job.before, s + r - 4)
  }

  /** The first carried word. */
  method LoadFirst(m: array<byte>, d: nat, s: nat, ghost n: nat, r: nat, ghost job: Job) returns (w: u32)
    requires At(m[..], job, d, s, n) && n >= 4 && s % 4 == 0 && 1 <= r <= 3
    ensures Carries(job, s + (4 - r), n - (4 - r), r, w)
  {
    hide Word;
    SourceIntact(job, job.n - n, s);
    w := Load32(m, s);
  }

  /** n & unit, for a power of two. */
  predicate Has(n: nat, unit: nat)
    requires unit > 0
  {
    n / unit % 2 == 1
  }

  function Part(n: nat, unit: nat): nat
    requires unit > 0
  {
    if Has(n, unit) then unit else 0
  }

  /** A number below 32 is the sum of its five bits. */
  lemma BitSum(n: nat)
    requires n < 32
    ensures n == Part(n, 16) + Part(n, 8) + Part(n, 4) + Part(n, 2) + Part(n, 1) && (n < 16 ==> Part(n, 16) == 0)
  {
  }

  /** The copy once both pointers are aligned. */
  method CopyAligned(m: array<byte>, d0: nat, s0: nat, n0: nat, ghost job: Job)
    requires At(m[..], job, d0, s0, n0) && d0 % 4 == 0 && (n0 > 0 ==> s0 % 4 == 0)
    modifies m
    ensures Done(m[..], job, job.n)
  {
    hide At, Done, Has;
    var d, s, n := d0, s0, n0;
    while n >= 16
      invariant At(m[..], job, d, s, n) && d % 4 == 0 && (n > 0 ==> s % 4 == 0)
    {
      CopyWords2(m, d, s, n, job);
      CopyWords2(m, d + 8, s + 8, n - 8, job);
      d, s, n := d + 16, s + 16, n - 16;
    }
    ghost var left := n;
    BitSum(n);
    if Has(n, 8) {
      CopyWords2(m, d, s, left, job);
      d, s, left := d + 8, s + 8, left - 8;
    }
    if Has(n, 4) {
      CopyWord(m, d, s, left, job);
      d, s, left := d + 4, s + 4, left - 4;
    }
    if Has(n, 2) {
      Copy2(m, d, s, left, job);
      d, s, left := d + 2, s + 2, left - 2;
    }
    if Has(n, 1) {
      Copy1(m, d, s, left, job);
      d, s, left := d + 1, s + 1, left - 1;
    }
    Finished(m[..], job, d, s);
  }

  lemma Finished(now: seq<byte>, job: Job, d: nat, s: nat)
    requires At(now, job, d, s, 0)
    ensures Done(now, job, job.n)
  {
  }

  /** The long stretch of a copy whose source is aligned and whose destination is r bytes past alignment: the case
      label is r, and each pass merges four pairs of source words. */
  method CopyMerging(m: array<byte>, d0: nat, s0: nat, n0: nat, ghost job: Job) returns (d: nat, s: nat, n: nat)
    requires At(m[..], job, d0, s0, n0) && n0 >= 32 && s0 % 4 == 0 && d0 % 4 != 0
    modifies m
    ensures n < 32 && At(m[..], job, d, s, n)
  {
    hide At, Carries;
    d, s, n := d0, s0, n0;
    var r := d % 4;
    var w := LoadFirst(m, d, s, n, r, job);
    if r == 1 {
      Copy2(m, d, s, n, job);
      Copy1(m, d + 2, s + 2, n - 2, job);
    } else if r == 2 {
      Copy2(m, d, s, n, job);
    } else {
      Copy1(m, d, s, n, job);
    }
    d, s, n := d + (4 - r), s + (4 - r), n - (4 - r);
    while n >= 16 + r
      invariant d % 4 == 0 && (s + r) % 4 == 0 && At(m[..], job, d, s, n) && Carries(job, s, n, r, w)
    {
      var x := CopyShifted(m, d, s, n, r, w, job);
      w := CopyShifted(m, d + 4, s + 4, n - 4, r, x, job);
      x := CopyShifted(m, d + 8, s + 8, n - 8, r, w, job);
      w := CopyShifted(m, d + 12, s + 12, n - 12, r, x, job);
      d, s, n := d + 16, s + 16, n - 16;
    }
  }

  /** The unrolled byte copies at the end. */
  method CopyRest(m: array<byte>, d0: nat, s0: nat, n: nat, ghost job: Job)
    requires At(m[..], job, d0, s0, n) && n < 32
    modifies m
    ensures Done(m[..], job, job.n)
  {
    hide At, Done, Has;
    var d, s := d0, s0;
    ghost var left := n;
    BitSum(n);
    if Has(n, 16) {
      Copy8(m, d, s, left, job);
      Copy8(m, d + 8, s + 8, left - 8, job);
      d, s, left := d + 16, s + 16, left - 16;
    }
    if Has(n, 8) {
      Copy8(m, d, s, left, job);
      d, s, left := d + 8, s + 8, left - 8;
    }
    if Has(n, 4) {
      Copy4(m, d, s, left, job);
      d, s, left := d + 4, s + 4, left - 4;
    }
    if Has(n, 2) {
      Copy2(m, d, s, left, job);
      d, s, left := d + 2, s + 2, left - 2;
    }
    if Has(n, 1) {
      Copy1(m, d, s, left, job);
      d, s, left := d + 1, s + 1, left - 1;
    }
    Finished(m[..], job, d, s);
  }

  /** Copies n bytes between disjoint ranges: the result is the byte-by-byte copy, for every length and alignment. */
  method Memcpy(m: array<byte>, dest: nat, src: nat, n0: nat) returns (r: nat)
    requires dest + n0 <= m.Length && src + n0 <= m.Length && (dest + n0 <= src || src + n0 <= dest)
    modifies m
    ensures r == dest && m[..] == Copied(old(m[..]), dest, src, n0)
    ensures forall i :: 0 <= i < m.Length ==>
              m[i] == if dest <= i < dest + n0 then old(m[src + (i - dest)]) else old(m[i])
  {
    hide Copied, At, Done;
    ghost var before := m[..];
    ghost var job := Job(before, dest, src, n0);
    NothingCopied(job);
    var d, s, n := dest, src, n0;
    while s % 4 != 0 && n > 0
      invariant At(m[..], job, d, s, n)
      decreases n
    {
      Copy1(m, d, s, n, job);
      d, s, n := d + 1, s + 1, n - 1;
    }
    if d % 4 == 0 {
      CopyAligned(m, d, s, n, job);
      AllCopied(m[..], job);
      forall i | 0 <= i < m.Length
        ensures m[i] == if dest <= i < dest + n0 then old(m[src + (i - dest)]) else old(m[i])
      {
        CopiedByte(before, dest, src, n0, i);
        assert m[i] == m[..][i];
      }
      return dest;
    }
    if n >= 32 {
      d, s, n := CopyMerging(m, d, s, n, job);
    }
    CopyRest(m, d, s, n, job);
    AllCopied(m[..], job);
    forall i | 0 <= i < m.Length
      ensures m[i] == if dest <= i < dest + n0 then old(m[src + (i - dest)]) else old(m[i])
    {
      CopiedByte(before, dest, src, n0, i);
      assert m[i] == m[..][i];
    }
    return dest;
  }

  /** Each byte of a copy. */
  lemma CopiedByte(mem: seq<byte>, dest: nat, src: nat, n: nat, i: nat)
    requires dest + n <= |mem| && src + n <= |mem| && i < |mem|
    ensures |Copied(mem, dest, src, n)| == |mem|
    ensures Copied(mem, dest, src, n)[i] == if dest <= i < dest + n then mem[src + (i - dest)] else mem[i]
  {
  }

  lemma AllCopied(now: seq<byte>, job: Job)
    requires Done(now, job, job.n)
    ensures job.Valid() && now == Copied(job.before, job.dest, job.src, job.n)
  {
  }

  lemma NothingCopied(job: Job)
    requires job.Valid()
    ensures At(job.before, job, job.dest, job.src, job.n)
  {
  }

  // ----- memmove -----

  /** Moves n bytes between ranges that may overlap in any way: the destination gets the bytes the source had. */
  method Memmove(m: array<byte>, dest: nat, src: nat, n: nat) returns (r: nat)
    requires dest + n <= m.Length && src + n <= m.Length
    modifies m
    ensures r == dest && m[..] == Copied(old(m[..]), dest, src, n)
    ensures forall i :: 0 <= i < m.Length ==>
              m[i] == if dest <= i < dest + n then old(m[src + (i - dest)]) else old(m[i])
  {
    hide Copied;
    ghost var before := m[..];
    MoveNothing(before, dest, src, n);
    if src > dest {
      var i := 0;
      while i < n
        invariant 0 <= i <= n && m[..] == Copied(before, dest, src, i)
      {
        ForwardStep(before, dest, src, i);
        m[dest + i] := m[src + i];
        i := i + 1;
      }
    } else if src < dest {
      var i := n;
      while i > 0
        invariant 0 <= i <= n && m[..] == Copied(before, dest + i, src + i, n - i)
      {
        BackwardStep(before, dest, src, i - 1, n);
        m[dest + i - 1] := m[src + i - 1];
        i := i - 1;
      }
    }
    forall i | 0 <= i < m.Length
      ensures m[i] == if dest <= i < dest + n then old(m[src + (i - dest)]) else old(m[i])
    {
      CopiedByte(before, dest, src, n, i);
      assert m[i] == m[..][i];
    }
    return dest;
  }

  lemma MoveNothing(mem: seq<byte>, dest: nat, src: nat, n: nat)
    requires dest + n <= |mem| && src + n <= |mem|
    ensures mem == Copied(mem, dest, src, 0) == Copied(mem, dest + n, src + n, 0) == Copied(mem, dest, dest, n)
  {
  }

  lemma ForwardStep(mem: seq<byte>, dest: nat, src: nat, i: nat)
    requires dest < src && src + i < |mem|
    ensures var c := Copied(mem, dest, src, i);
            |c| == |mem| && c[src + i] == mem[src + i] && c[dest + i := mem[src + i]] == Copied(mem, dest, src, i + 1)
  {
  }

  lemma BackwardStep(mem: seq<byte>, dest: nat, src: nat, i: nat, n: nat)
    requires src < dest && i < n && dest + n <= |mem|
    ensures var c := Copied(mem, dest + i + 1, src + i + 1, n - i - 1);
            |c| == |mem| && c[src + i] == mem[src + i] &&
            c[dest + i := mem[src + i]] == Copied(mem, dest + i, src + i, n - i)
  {
  }

  // ----- memset -----

  /** The memory with byte c at the covered addresses. */
  function Painted(mem: seq<byte>, covered: set<nat>, c: byte): (now: seq<byte>)
    ensures |now| == |mem|
  {
    seq(|mem|, i requires 0 <= i < |mem| => if i in covered then c else mem[i])
  }

  predicate Between(lo: nat, i: nat, hi: nat) { lo <= i < hi }

  function Range(lo: nat, hi: nat): set<nat> {
    set i: nat | i < hi && Between(lo, i, hi)
  }

  lemma PaintMore(mem: seq<byte>, covered: set<nat>, c: byte, p: nat, n: nat)
    requires p + n <= |mem|
    ensures var now := Painted(mem, covered, c);
            now[..p] + seq(n, _ => c) + now[p + n..] == Painted(mem, covered + Range(p, p + n), c)
  {
  }

  method Set1(m: array<byte>, p: nat, c: byte, ghost before: seq<byte>, ghost covered: set<nat>)
    returns (ghost covered': set<nat>)
    requires m[..] == Painted(before, covered, c) && p < m.Length
    modifies m
    ensures covered' == covered + Range(p, p + 1) && m[..] == Painted(before, covered', c)
  {
    covered' := covered + Range(p, p + 1);
    m[p] := c;
  }

  /** *(u32 *) p = c32 */
  method Set4(m: array<byte>, p: nat, c: byte, c32: u32, ghost before: seq<byte>, ghost covered: set<nat>)
    returns (ghost covered': set<nat>)
    requires m[..] == Painted(before, covered, c) && p % 4 == 0 && p + 4 <= m.Length && c32 == Word(c, c, c, c)
    modifies m
    ensures covered' == covered + Range(p, p + 4) && m[..] == Painted(before, covered', c)
  {
    hide Word, Byte0, Byte1, Byte2, Byte3, Painted, Range;
    covered' := covered + Range(p, p + 4);
    WordBytes(c, c, c, c);
    PaintMore(before, covered, c, p, 4);
    Store32(m, p, c32);
    assert [c, c, c, c] == seq(4, _ => c);
  }

  lemma JoinRanges(covered: set<nat>, a: nat, b: nat, c: nat)
    requires a <= b <= c
    ensures covered + Range(a, b) + Range(b, c) == covered + Range(a, c)
  {
  }

  /** Two and four neighbouring words. */
  method SetTwo(m: array<byte>, p: nat, c: byte, c32: u32, ghost before: seq<byte>, ghost covered: set<nat>)
    returns (ghost covered': set<nat>)
    requires m[..] == Painted(before, covered, c) && p % 4 == 0 && p + 8 <= m.Length && c32 == Word(c, c, c, c)
    modifies m
    ensures covered' == covered + Range(p, p + 8) && m[..] == Painted(before, covered', c)
  {
    hide Word, Painted, Range;
    covered' := Set4(m, p, c, c32, before, covered);
    covered' := Set4(m, p + 4, c, c32, before, covered');
    JoinRanges(covered, p, p + 4, p + 8);
  }

  method SetFour(m: array<byte>, p: nat, c: byte, c32: u32, ghost before: seq<byte>, ghost covered: set<nat>)
    returns (ghost covered': set<nat>)
    requires m[..] == Painted(before, covered, c) && p % 4 == 0 && p + 16 <= m.Length && c32 == Word(c, c, c, c)
    modifies m
    ensures covered' == covered + Range(p, p + 16) && m[..] == Painted(before, covered', c)
  {
    hide Word, Painted, Range;
    covered' := SetTwo(m, p, c, c32, before, covered);
    covered' := SetTwo(m, p + 8, c, c32, before, covered');
    JoinRanges(covered, p, p + 8, p + 16);
  }

  lemma Halves(w: u32)
    ensures var d: nat := w + 0x1_0000_0000 * (w as nat); d % 0x1_0000_0000 == w && d / 0x1_0000_0000 == w
  {
  }

  /** *(u64 *) p = c64, where the processor stores the low word first. */
  method Set8(m: array<byte>, p: nat, c: byte, c64: nat, ghost before: seq<byte>, ghost covered: set<nat>)
    returns (ghost covered': set<nat>)
    requires m[..] == Painted(before, covered, c) && p % 8 == 0 && p + 8 <= m.Length
    requires c64 == Word(c, c, c, c) + 0x1_0000_0000 * Word(c, c, c, c)
    modifies m
    ensures covered' == covered + Range(p, p + 8) && m[..] == Painted(before, covered', c)
  {
    hide Word, Painted, Range;
    Halves(Word(c, c, c, c));
    covered' := Set4(m, p, c, c64 % 0x1_0000_0000, before, covered);
    covered' := Set4(m, p + 4, c, c64 / 0x1_0000_0000, before, covered');
    JoinRanges(covered, p, p + 4, p + 8);
  }

  /** The byte stores at both ends; they are all that is needed up to 8 bytes. */
  method SetEnds(m: array<byte>, s: nat, n: nat, c: byte, ghost before: seq<byte>) returns (ghost covered: set<nat>)
    requires m[..] == before && n > 0 && s + n <= m.Length
    modifies m
    ensures m[..] == Painted(before, covered, c)
    ensures covered == if n <= 8 then Range(s, s + n) else Range(s, s + 4) + Range(s + n - 4, s + n)
  {
    hide Painted, Range;
    PaintNothing(before, c);
    EndsCover(s, n);
    covered := Set1(m, s, c, before, {});
    covered := Set1(m, s + n - 1, c, before, covered);
    if n <= 2 { return; }
    covered := Set1(m, s + 1, c, before, covered);
    covered := Set1(m, s + 2, c, before, covered);
    covered := Set1(m, s + n - 2, c, before, covered);
    covered := Set1(m, s + n - 3, c, before, covered);
    if n <= 6 { return; }
    covered := Set1(m, s + 3, c, before, covered);
    covered := Set1(m, s + n - 4, c, before, covered);
  }

  /** The two, six and eight bytes set at the ends. */
  lemma EndsCover(s: nat, n: nat)
    requires n > 0
    ensures var two := {} + Range(s, s + 1) + Range(s + n - 1, s + n);
            (n <= 2 ==> two == Range(s, s + n)) &&
            (n > 2 ==>
              var six := two + Range(s + 1, s + 2) + Range(s + 2, s + 3) + Range(s + n - 2, s + n - 1) +
                Range(s + n - 3, s + n - 2);
              (n <= 6 ==> six == Range(s, s + n)) &&
              (n > 6 ==>
                var eight := six + Range(s + 3, s + 4) + Range(s + n - 4, s + n - 3);
                eight == if n <= 8 then Range(s, s + n) else Range(s, s + 4) + Range(s + n - 4, s + n)))
  {
    var two := {} + Range(s, s + 1) + Range(s + n - 1, s + n);
    assert forall i: nat :: i in two <==> i == s || i == s + n - 1;
    if n > 2 {
      var six := two + Range(s + 1, s + 2) + Range(s + 2, s + 3) + Range(s + n - 2, s + n - 1) +
        Range(s + n - 3, s + n - 2);
      assert forall i: nat :: i in six <==> s <= i < s + 3 || s + n - 3 <= i < s + n;
    }
  }

  lemma PaintNothing(mem: seq<byte>, c: byte)
    ensures Painted(mem, {}, c) == mem
  {
  }

  /** The word stores at both ends, for a range of whole aligned words; they are all that is needed up to 24 bytes. */
  method SetWordEnds(m: array<byte>, s: nat, n: nat, c: byte, c32: u32, ghost before: seq<byte>,
                     ghost covered0: set<nat>)
    returns (ghost covered: set<nat>)
    requires m[..] == Painted(before, covered0, c) && s % 4 == 0 && n % 4 == 0 && n >= 4 && s + n <= m.Length
    requires c32 == Word(c, c, c, c)
    modifies m
    ensures m[..] == Painted(before, covered, c)
    ensures covered == covered0 + if n <= 24 then Range(s, s + n) else Range(s, s + 28) + Range(s + n - 28, s + n)
  {
    hide Painted, Word;
    covered := Set4(m, s, c, c32, before, covered0);
    covered := Set4(m, s + n - 4, c, c32, before, covered);
    if n <= 8 { return; }
    covered := SetTwo(m, s + 4, c, c32, before, covered);
    covered := SetTwo(m, s + n - 12, c, c32, before, covered);
    if n <= 24 { return; }
    covered := SetFour(m, s + 12, c, c32, before, covered);
    covered := SetFour(m, s + n - 28, c, c32, before, covered);
  }

  /** The 32-byte passes over what is left between the two ends. */
  method SetMiddle(m: array<byte>, s0: nat, n0: nat, c: byte, c64: nat, ghost before: seq<byte>,
                   ghost covered0: set<nat>)
    returns (ghost covered: set<nat>, ghost end: nat)
    requires m[..] == Painted(before, covered0, c) && s0 % 8 == 0 && n0 % 4 == 0 && s0 + n0 <= m.Length
    requires c64 == Word(c, c, c, c) + 0x1_0000_0000 * Word(c, c, c, c)
    modifies m
    ensures covered == covered0 + Range(s0, end) && m[..] == Painted(before, covered, c)
    ensures s0 <= end <= s0 + n0 <= end + 28
  {
    hide Painted, Word, Range;
    var s, n := s0, n0;
    covered := covered0;
    EmptyRange(s0);
    while n >= 32
      invariant s % 8 == 0 && s + n == s0 + n0 && n % 4 == 0 && s0 <= s
      invariant covered == covered0 + Range(s0, s) && m[..] == Painted(before, covered, c)
    {
      covered := Set8(m, s, c, c64, before, covered);
      covered := Set8(m, s + 8, c, c64, before, covered);
      covered := Set8(m, s + 16, c, c64, before, covered);
      covered := Set8(m, s + 24, c, c64, before, covered);
      JoinRanges(covered0, s0, s, s + 8);
      JoinRanges(covered0, s0, s + 8, s + 16);
      JoinRanges(covered0, s0, s + 16, s + 24);
      JoinRanges(covered0, s0, s + 24, s + 32);
      s, n := s + 32, n - 32;
    }
    end := s;
  }

  lemma EmptyRange(s: nat)
    ensures Range(s, s) == {}
  {
  }

  /** Sets n bytes to the low byte of c: exactly the target bytes change, for every length and alignment. */
  method Memset(m: array<byte>, dest: nat, c0: int, n0: nat) returns (r: nat)
    requires dest + n0 <= m.Length
    modifies m
    ensures r == dest && m[..] == Painted(old(m[..]), Range(dest, dest + n0), c0 % 0x100)
    ensures forall i :: 0 <= i < m.Length ==> m[i] == if dest <= i < dest + n0 then c0 % 0x100 else old(m[i])
  {
    hide Painted, Word, Range, Or;
    r := dest;
    var c := c0 % 0x100;
    ghost var before := m[..];
    PaintedBytes(before, dest, n0, c);
    PaintNothing(before, c);
    EmptyRange(dest);
    if n0 == 0 { return; }
    ghost var covered := SetEnds(m, dest, n0, c, before);
    assert forall i :: 0 <= i < m.Length ==> m[i] == m[..][i];
    if n0 <= 8 { return; }

    var k := (0 - dest) % 4;
    var s, n := dest + k, n0 - k;
    n := n - n % 4;
    covered := SetWords(m, s, n, c, before, covered);
    WordsCover(dest, n0, k);
    assert forall i :: 0 <= i < m.Length ==> m[i] == m[..][i];
  }

  /** A painted range byte by byte. */
  lemma PaintedBytes(mem: seq<byte>, dest: nat, n: nat, c: byte)
    ensures var now := Painted(mem, Range(dest, dest + n), c);
            |now| == |mem| && forall i :: 0 <= i < |mem| ==> now[i] == if dest <= i < dest + n then c else mem[i]
  {
  }

  /** The part of memset that works on a range of whole aligned words. */
  method SetWords(m: array<byte>, s0: nat, n0: nat, c: byte, ghost before: seq<byte>, ghost covered0: set<nat>)
    returns (ghost covered: set<nat>)
    requires m[..] == Painted(before, covered0, c) && s0 % 4 == 0 && n0 % 4 == 0 && n0 >= 4 && s0 + n0 <= m.Length
    modifies m
    ensures covered == covered0 + Range(s0, s0 + n0) && m[..] == Painted(before, covered, c)
  {
    hide Painted, Word, Range, Or;
    var s, n := s0, n0;
    var c32: nat := 0xFFFF_FFFF / 255 * c;
    RepeatedByte(c);
    covered := SetWordEnds(m, s, n, c, c32, before, covered0);
    if n <= 24 { return; }

    var k := 24 + s / 4 % 2 * 4;
    s, n := s + k, n - k;
    var c64: nat := Or(c32, c32 * 0x1_0000_0000);
    ghost var end;
    covered, end := SetMiddle(m, s, n, c, c64, before, covered);
    MiddleCovers(covered0, s0, n0, k, end);
  }

  /** The bytes set first at both ends make up for the bytes that rounding to whole words leaves out. */
  lemma WordsCover(dest: nat, n0: nat, k: nat)
    requires n0 > 8 && k < 4
    ensures var s, n := dest + k, n0 - k - (n0 - k) % 4;
            Range(dest, dest + 4) + Range(dest + n0 - 4, dest + n0) + Range(s, s + n) == Range(dest, dest + n0)
  {
  }

  /** The words at both ends and the 32-byte passes between them cover the whole range. */
  lemma MiddleCovers(covered: set<nat>, s: nat, n: nat, k: nat, end: nat)
    requires n >= 28 && k <= 28 && s + k <= end <= s + n <= end + 28
    ensures covered + (Range(s, s + 28) + Range(s + n - 28, s + n)) + Range(s + k, end) == covered + Range(s, s + n)
  {
  }

  /** ((u32) -1) / 255 * c has c in all four bytes, and c32 | (u64) c32 << 32 has it in all eight. */
  lemma RepeatedByte(c: byte)
    ensures 0xFFFF_FFFF / 255 * c == Word(c, c, c, c)
    ensures Or(Word(c, c, c, c), Word(c, c, c, c) * 0x1_0000_0000) ==
              Word(c, c, c, c) + 0x1_0000_0000 * Word(c, c, c, c)
  {
    hide Or, Pow2;
    BytePowers();
    OrParts(Word(c, c, c, c), Word(c, c, c, c), 32, 0x1_0000_0000);
  }
}
