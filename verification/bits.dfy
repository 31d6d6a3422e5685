/**
 Powers of two, right shifts and bit counts on unbounded naturals.  The Go code works on
 uint64 and bytes with masks and shifts; here `v >> k` is `Shr(v, k)` and a test of bit
 `k` of `v` is `Bit(v, k)`.  Shifting is defined by repeated halving, so that every
 fact below is linear arithmetic.
 */
module Bits {

  const TWO_63: nat := 0x8000_0000_0000_0000
  const TWO_64: nat := 0x1_0000_0000_0000_0000

  function Pow2(k: nat): (p: nat)
    ensures p >= 1
  {
    if k == 0 then 1 else 2 * Pow2(k - 1)
  }

  /** `v >> k` */
  function Shr(v: nat, k: nat): nat {
    if k == 0 then v else Shr(v, k - 1) / 2
  }

  /** bit `k` of `v` is set */
  predicate Bit(v: nat, k: nat) {
    Shr(v, k) % 2 == 1
  }

  /** the number of bits needed to write `v` */
  function BitLen(v: nat): nat {
    if v == 0 then 0 else 1 + BitLen(v / 2)
  }

  /** the number of bits set in `v` */
  function PopCount(v: nat): nat {
    if v == 0 then 0 else v % 2 + PopCount(v / 2)
  }

  /** the depth of the smallest balanced binary tree with at least `v` leaves */
  function CeilLog2(v: nat): nat {
    if v <= 1 then 0 else 1 + CeilLog2((v + 1) / 2)
  }

  /** `k` blocks of `2^j` fit in `n` exactly when `k <= n >> j` */
  lemma {:induction false} ShrGalois(n: nat, j: nat, k: nat)
    ensures k * Pow2(j) <= n <==> k <= Shr(n, j)
    decreases j
  {
    if j > 0 {
      ShrGalois(n, j - 1, 2 * k);
      assert k * Pow2(j) == (2 * k) * Pow2(j - 1);
    }
  }

  lemma ShrZero(n: nat, j: nat)
    ensures n < Pow2(j) <==> Shr(n, j) == 0
  {
    ShrGalois(n, j, 1);
  }

  lemma {:induction false} ShrOfZero(j: nat)
    ensures Shr(0, j) == 0
  {
    if j > 0 { ShrOfZero(j - 1); }
  }

  lemma ShrZeroAbove(n: nat, j: nat, k: nat)
    requires n < Pow2(j) && j <= k
    ensures Shr(n, k) == 0
  {
    Pow2Monotone(j, k);
    ShrZero(n, k);
  }

  lemma {:induction false} Pow2Monotone(j: nat, k: nat)
    requires j <= k
    ensures Pow2(j) <= Pow2(k)
  {
    if j < k { Pow2Monotone(j, k - 1); }
  }

  lemma ShrMonotone(a: nat, b: nat, j: nat)
    requires a <= b
    ensures Shr(a, j) <= Shr(b, j)
    decreases j
  {
    if j > 0 { ShrMonotone(a, b, j - 1); }
  }

  lemma {:induction false} Pow2Sum(a: nat, b: nat)
    ensures Pow2(a) * Pow2(b) == Pow2(a + b)
  {
    if a > 0 {
      Pow2Sum(a - 1, b);
      assert Pow2(a) * Pow2(b) == 2 * (Pow2(a - 1) * Pow2(b));
    }
  }

  lemma Pow2Square(k: nat, p: nat)
    requires Pow2(k) == p
    ensures Pow2(2 * k) == p * p
  {
    Pow2Sum(k, k);
  }

  lemma Pow2Constants()
    ensures Pow2(2) == 4 && Pow2(4) == 16 && Pow2(8) == 0x100
    ensures Pow2(16) == 0x1_0000 && Pow2(32) == 0x1_0000_0000
  {
    Pow2Square(1, 2);
    Pow2Square(2, 4);
    Pow2Square(4, 16);
    Pow2Square(8, 0x100);
    Pow2Square(16, 0x1_0000);
  }

  lemma {:induction false} ShrOfPow2(d: nat, j: nat)
    requires j <= d
    ensures Shr(Pow2(d), j) == Pow2(d - j)
    decreases j
  {
    if j > 0 { ShrOfPow2(d, j - 1); }
  }

  /** Shifts compose from the other end too. */
  lemma {:induction false} ShrFront(v: nat, k: nat)
    ensures Shr(v, k + 1) == Shr(v / 2, k)
    decreases k
  {
    if k > 0 { ShrFront(v, k - 1); }
  }

  /** The carry of `i + 1` has run through the `j` lowest bits. */
  ghost predicate CarryAt(i: nat, j: nat) {
    Shr(i + 1, j) == Shr(i, j) + 1 && LowClear(i + 1, j)
  }

  ghost predicate LowClear(n: nat, j: nat) {
    forall k :: 0 <= k < j ==> !Bit(n, k)
  }

  lemma CarryOn(i: nat, j: nat)
    requires CarryAt(i, j) && Bit(i, j)
    ensures CarryAt(i, j + 1)
  {
  }

  /** Once the carry of `i + 1` has stopped, every higher shift is unchanged. */
  lemma {:induction false} CarryStops(i: nat, j: nat, k: nat)
    requires Shr(i + 1, j) == Shr(i, j) && j <= k
    ensures Shr(i + 1, k) == Shr(i, k)
  {
    if j < k { CarryStops(i, j, k - 1); }
  }

  /** A shift of `i + 1` differs from that of `i` by one exactly when all lower bits are set. */
  lemma {:induction false} CarryReaches(i: nat, j: nat)
    ensures Shr(i, j) <= Shr(i + 1, j) <= Shr(i, j) + 1
    ensures Shr(i + 1, j) == Shr(i, j) + 1 <==> forall k :: 0 <= k < j ==> Bit(i, k)
  {
    if j > 0 {
      CarryReaches(i, j - 1);
      assert Bit(i, j - 1) <==> Shr(i, j - 1) % 2 == 1;
    }
  }

  lemma {:induction false} BitLenShr(v: nat, k: nat)
    requires Shr(v, k) > 0
    ensures BitLen(v) == k + BitLen(Shr(v, k))
    decreases k
  {
    if k > 0 { BitLenShr(v, k - 1); }
  }

  /** A set of trailing ones is counted one by one. */
  lemma {:induction false} PopCountTrailing(i: nat, j: nat)
    requires Shr(i + 1, j) == Shr(i, j) + 1
    ensures PopCount(i) == j + PopCount(Shr(i, j))
    ensures PopCount(i + 1) == PopCount(Shr(i + 1, j))
    decreases j
  {
    if j > 0 {
      CarryReaches(i, j);
      CarryReaches(i, j - 1);
      PopCountTrailing(i, j - 1);
      assert Bit(i, j - 1);
    }
  }

  lemma {:induction false} PopCountBound(n: nat)
    ensures PopCount(n) <= n
  {
    if n > 0 { PopCountBound(n / 2); }
  }

  /** `CeilLog2(v)` is the least depth whose tree has room for `v` leaves. */
  lemma {:induction false} CeilLog2Least(v: nat, d: nat)
    ensures v <= Pow2(d) <==> CeilLog2(v) <= d
    decreases v, d
  {
    if v > 1 {
      if d > 0 { CeilLog2Least((v + 1) / 2, d - 1); }
    }
  }

  lemma {:induction false} CeilLog2IsBitLen(v: nat)
    requires v >= 2
    ensures CeilLog2(v) == BitLen(v - 1)
  {
    if v > 2 {
      CeilLog2IsBitLen((v + 1) / 2);
      assert (v - 1) / 2 == (v + 1) / 2 - 1;
    }
  }
}
