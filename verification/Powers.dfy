/**
Powers of two, and numbers with their low bits cleared. Everything the CIDR proofs need
from arithmetic is stated here once, so that the other modules only add and compare.
*/
module Powers {

  function Pow2(n: nat): (r: nat)
    ensures r >= 1
  {
    if n == 0 then 1 else 2 * Pow2(n - 1)
  }

  lemma {:induction false} Pow2Monotonic(a: nat, b: nat)
    requires a <= b
    ensures Pow2(a) <= Pow2(b)
    ensures a < b ==> 2 * Pow2(a) <= Pow2(b)
    decreases b - a
  {
    if a < b {
      Pow2Monotonic(a + 1, b);
    }
  }

  lemma PowShift(h: nat)
    ensures Pow2(h + 8) == 256 * Pow2(h)
  {
    assert Pow2(h + 8) == 2 * Pow2(h + 7) && Pow2(h + 7) == 2 * Pow2(h + 6);
    assert Pow2(h + 6) == 2 * Pow2(h + 5) && Pow2(h + 5) == 2 * Pow2(h + 4);
    assert Pow2(h + 4) == 2 * Pow2(h + 3) && Pow2(h + 3) == 2 * Pow2(h + 2);
    assert Pow2(h + 2) == 2 * Pow2(h + 1) && Pow2(h + 1) == 2 * Pow2(h);
  }

  /** The values that come up in concrete IPv4 blocks. */
  lemma Pow2Values()
    ensures Pow2(2) == 4 && Pow2(8) == 256 && Pow2(32) == 0x1_0000_0000
  {
    PowShift(0);
    PowShift(8);
    PowShift(16);
    PowShift(24);
  }

  /** `v` with its `k` low bits cleared, as `net.IP.Mask` does with a mask of `k` host bits. */
  function Mask(v: nat, k: nat): (r: nat) {
    if k == 0 then v else 2 * Mask(v / 2, k - 1)
  }

  predicate Aligned(v: nat, k: nat) {
    Mask(v, k) == v
  }

  lemma {:induction false} MaskBounds(v: nat, k: nat)
    ensures Mask(v, k) <= v < Mask(v, k) + Pow2(k)
    ensures Aligned(Mask(v, k), k)
  {
    if k > 0 {
      MaskBounds(v / 2, k - 1);
    }
  }

  /** Two numbers aligned to the same bit are at least that far apart. */
  lemma {:induction false} AlignedApart(x: nat, y: nat, k: nat)
    requires Aligned(x, k) && Aligned(y, k) && x < y
    ensures x + Pow2(k) <= y
  {
    if k > 0 {
      AlignedApart(x / 2, y / 2, k - 1);
    }
  }

  lemma {:induction false} AlignedNext(v: nat, k: nat)
    requires Aligned(v, k)
    ensures Aligned(v + Pow2(k), k)
  {
    if k > 0 {
      AlignedNext(v / 2, k - 1);
      assert (v + Pow2(k)) / 2 == v / 2 + Pow2(k - 1);
    }
  }

  lemma {:induction false} AlignedLower(v: nat, j: nat, k: nat)
    requires Aligned(v, k) && j <= k
    ensures Aligned(v, j)
  {
    if j > 0 {
      AlignedLower(v / 2, j - 1, k - 1);
    }
  }

  /** An odd multiple of 2^k becomes an even one when 2^k is added. */
  lemma {:induction false} AlignedCarry(v: nat, k: nat)
    requires Aligned(v, k) && !Aligned(v, k + 1)
    ensures Aligned(v + Pow2(k), k + 1)
  {
    if k > 0 {
      AlignedCarry(v / 2, k - 1);
      assert (v + Pow2(k)) / 2 == v / 2 + Pow2(k - 1);
    }
  }

  /** The numbers that mask to an aligned base are exactly those of its block. */
  lemma MaskBlock(v: nat, base: nat, k: nat)
    requires Aligned(base, k)
    ensures Mask(v, k) == base <==> base <= v < base + Pow2(k)
  {
    var m := Mask(v, k);
    MaskBounds(v, k);
    if base <= v < base + Pow2(k) {
      if m < base {
        AlignedApart(m, base, k);
      } else if base < m {
        AlignedApart(base, m, k);
      }
    }
  }
}
