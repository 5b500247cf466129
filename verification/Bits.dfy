/** Bitwise operators of unsigned machine words, given on the numbers they denote, and the few laws
    about them that the memory manager rests on. */
module Bits {

  const WORD64: nat := 0x1_0000_0000_0000_0000

  type byte = x: nat | x < 0x100
  type u32 = x: nat | x < 0x1_0000_0000
  type u64 = x: nat | x < WORD64

  /** An unsigned 64-bit result: what is left of an unbounded sum after the carry is lost. */
  function Wrap64(n: nat): (r: nat)
    ensures r < WORD64
    ensures n < WORD64 ==> r == n
  {
    n % WORD64
  }

  function Pow2(k: nat): (r: nat)
    ensures r > 0
  {
    if k == 0 then 1 else 2 * Pow2(k - 1)
  }

  predicate Bit(n: nat, k: nat) {
    if k == 0 then n % 2 == 1 else Bit(n / 2, k - 1)
  }

  function Or(a: nat, b: nat): nat {
    if a == 0 then b else if b == 0 then a
    else 2 * Or(a / 2, b / 2) + (if a % 2 == 1 || b % 2 == 1 then 1 else 0)
  }

  function And(a: nat, b: nat): nat {
    if a == 0 || b == 0 then 0
    else 2 * And(a / 2, b / 2) + (if a % 2 == 1 && b % 2 == 1 then 1 else 0)
  }

  lemma {:induction false} ZeroBit(k: nat)
    ensures !Bit(0, k)
  {
    if k > 0 { ZeroBit(k - 1); }
  }

  lemma {:induction false} OrBit(a: nat, b: nat, k: nat)
    ensures Bit(Or(a, b), k) <==> Bit(a, k) || Bit(b, k)
  {
    ZeroBit(k);
    if k > 0 && a != 0 && b != 0 {
      OrBit(a / 2, b / 2, k - 1);
    }
  }

  lemma {:induction false} OrCommutes(a: nat, b: nat)
    ensures Or(a, b) == Or(b, a)
  {
    if a != 0 && b != 0 { OrCommutes(a / 2, b / 2); }
  }

  lemma {:induction false} AndBit(a: nat, b: nat, k: nat)
    ensures Bit(And(a, b), k) <==> Bit(a, k) && Bit(b, k)
  {
    ZeroBit(k);
    if k > 0 && a != 0 && b != 0 {
      AndBit(a / 2, b / 2, k - 1);
    }
  }

  lemma {:induction false} PowBit(j: nat, k: nat)
    ensures Bit(Pow2(j), k) <==> j == k
  {
    if j == 0 {
      if k > 0 { ZeroBit(k - 1); }
    } else if k > 0 {
      PowBit(j - 1, k - 1);
    }
  }

  /** Testing a single bit with a mask. */
  lemma {:induction false} AndPow(n: nat, k: nat)
    ensures And(n, Pow2(k)) == if Bit(n, k) then Pow2(k) else 0
  {
    if n == 0 {
      ZeroBit(k);
    } else if k > 0 {
      AndPow(n / 2, k - 1);
    } else {
      assert And(n / 2, 0) == 0;
    }
  }

  lemma {:induction false} OrBound(a: nat, b: nat, k: nat)
    requires a < Pow2(k) && b < Pow2(k)
    ensures Or(a, b) < Pow2(k)
  {
    if k > 0 { OrBound(a / 2, b / 2, k - 1); }
  }

  lemma {:induction false} AndBound(a: nat, b: nat)
    ensures And(a, b) <= a && And(a, b) <= b
  {
    if a != 0 && b != 0 { AndBound(a / 2, b / 2); }
  }

  /** The complement of an 8-bit mask with one bit set. */
  lemma {:induction false} ComplementBit(n: nat, w: nat, k: nat)
    requires n < Pow2(w) && k < w
    ensures Bit(Pow2(w) - 1 - n, k) <==> !Bit(n, k)
  {
    if k > 0 {
      ComplementBit(n / 2, w - 1, k - 1);
      assert (Pow2(w) - 1 - n) / 2 == Pow2(w - 1) - 1 - n / 2;
    }
  }

  function Shl(n: nat, k: nat): nat {
    if k == 0 then n else 2 * Shl(n, k - 1)
  }

  function Shr(n: nat, k: nat): nat {
    if k == 0 then n else Shr(n / 2, k - 1)
  }

  /** The k lowest bits. */
  function Low(n: nat, k: nat): nat {
    if k == 0 then 0 else 2 * Low(n / 2, k - 1) + n % 2
  }

  /** Nothing of a number below 2^k overlaps a number whose low k bits are clear. */
  lemma {:induction false} OrDisjoint(high: nat, low: nat, k: nat)
    requires low < Pow2(k)
    ensures Or(Shl(high, k), low) == Shl(high, k) + low
  {
    if k > 0 {
      OrDisjoint(high, low / 2, k - 1);
      assert Shl(high, k) / 2 == Shl(high, k - 1);
    }
  }

  /** A mask that starts at bit k keeps the part above it. */
  lemma {:induction false} AndShifted(a: nat, m: nat, k: nat)
    ensures And(a, Shl(m, k)) == Shl(And(Shr(a, k), m), k)
  {
    if k > 0 {
      AndShifted(a / 2, m, k - 1);
      AndDouble(a, Shl(m, k - 1));
    }
  }

  lemma AndDouble(a: nat, x: nat)
    ensures And(a, 2 * x) == 2 * And(a / 2, x)
  {
    assert (2 * x) / 2 == x;
  }

  /** A mask of k ones keeps the k lowest bits. */
  lemma {:induction false} AndOnes(a: nat, k: nat)
    ensures And(a, Pow2(k) - 1) == Low(a, k)
  {
    if k > 0 {
      AndOnes(a / 2, k - 1);
      if a == 0 {
        assert And(0, Pow2(k - 1) - 1) == 0;
      } else {
        assert (Pow2(k) - 1) / 2 == Pow2(k - 1) - 1;
      }
    }
  }

  /** Shifts are multiplication and division by a power of two. */
  lemma {:induction false} ShiftsDivide(n: nat, k: nat)
    ensures n == Shr(n, k) * Pow2(k) + Low(n, k) && Low(n, k) < Pow2(k)
    ensures Shl(n, k) == n * Pow2(k)
  {
    if k > 0 {
      ShiftsDivide(n / 2, k - 1);
      ShiftsDivide(n, k - 1);
      Reassociate(Shr(n, k), Pow2(k - 1));
      Reassociate(n, Pow2(k - 1));
    }
  }

  lemma Reassociate(x: nat, p: nat)
    ensures 2 * (x * p) == x * (2 * p)
  {}

  lemma ShiftsDivideBy(n: nat, k: nat, p: nat)
    requires p == Pow2(k)
    ensures Shr(n, k) == n / p && Low(n, k) == n % p && Shl(n, k) == n * p
  {
    ShiftsDivide(n, k);
    DivUnique(n, p, Shr(n, k), Low(n, k));
  }

  lemma DivUnique(a: nat, p: nat, q: nat, r: nat)
    requires r < p && a == q * p + r
    ensures a / p == q && a % p == r
  {
    var d := a / p;
    assert a == d * p + a % p;
    if d < q { MulMono(d + 1, q, p); }
    if d > q { MulMono(q + 1, d, p); }
  }

  lemma MulMono(x: nat, y: nat, p: nat)
    requires x <= y
    ensures x * p <= y * p
  {}

  lemma {:induction false} PowSum(j: nat, k: nat)
    ensures Pow2(j + k) == Pow2(j) * Pow2(k)
  {
    if j > 0 {
      PowSum(j - 1, k);
      Associate(Pow2(j - 1), Pow2(k));
    }
  }

  lemma Associate(x: nat, p: nat)
    ensures 2 * (x * p) == (2 * x) * p
  {}

  lemma Powers()
    ensures Pow2(7) == 128 && Pow2(8) == 256 && Pow2(9) == 512 && Pow2(12) == 4096 && Pow2(21) == 0x200000
  {}

  lemma WidePowers()
    ensures Pow2(31) == 0x8000_0000 && Pow2(40) == 0x100_0000_0000 && Pow2(64) == WORD64
  {
    PowersOf16();
    PowSum(16, 15); PowSum(16, 16); PowSum(32, 8); PowSum(32, 32);
  }

  lemma PowersOf16()
    ensures Pow2(8) == 0x100 && Pow2(15) == 0x8000 && Pow2(16) == 0x1_0000
  {}

  lemma {:induction false} BitShr(n: nat, k: nat)
    ensures Bit(n, k) <==> Shr(n, k) % 2 == 1
  {
    if k > 0 { BitShr(n / 2, k - 1); }
  }

  /** Bit k counts 2^k. */
  lemma BitExactly(n: nat, k: nat)
    ensures Bit(n, k) <==> n / Pow2(k) % 2 == 1
  {
    hide Bit, Shr, Pow2;
    BitShr(n, k);
    ShiftsDivideBy(n, k, Pow2(k));
  }
}
