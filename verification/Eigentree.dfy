/** Finding a leaf: which peak covers it, and the path below that peak. */
module Eigentree {
  import opened Bits
  import opened MountainRange
  import opened Outcomes

  /**
  Leaf `i` of `n` lies under the peak of this index and height: the one-bits of `n` above the height count
  the peaks to its left, and the bits of `i` below the height are its offset under the peak.
  */
  ghost predicate LiesUnder(i: nat, n: nat, peak: int, height: nat)
  {
    var mask := Pow2(height) - 1;
    && peak == EigenIndex(n, height)
    && 0 <= peak < CountOnes(n)
    && PeakHeights(n)[peak] == height
    && And(i, mask) < Pow2(height)
    && i == PeakStart(n, peak) + And(i, mask)
  }

  /** The position of the highest bit in which `i` and `n` differ. */
  ghost function EigenHeight(i: nat, n: nat): nat
    requires i < n
  {
    XorDistinct(i, n);
    BitLength(Xor(i, n)) - 1
  }

  ghost function EigenIndex(n: nat, height: nat): int
  {
    CountOnes(n) - CountOnes(And(n, Pow2(height) - 1)) - 1
  }

  lemma EigenHeightHalves(i: nat, n: nat)
    requires i < n
    ensures i / 2 == n / 2 ==> EigenHeight(i, n) == 0
    ensures i / 2 != n / 2 ==> EigenHeight(i, n) == EigenHeight(i / 2, n / 2) + 1
  {
    XorDistinct(i, n);
    if i / 2 == n / 2 {
      XorSelf(i / 2);
      assert Xor(i, n) == 1;
    } else {
      XorDistinct(i / 2, n / 2);
      assert Xor(i, n) / 2 == Xor(i / 2, n / 2);
    }
  }

  /** The highest differing bit is the height of the covering peak. */
  lemma {:induction false} EigenAddress(i: nat, n: nat)
    requires i < n
    ensures LiesUnder(i, n, EigenIndex(n, EigenHeight(i, n)), EigenHeight(i, n))
    decreases n
  {
    EigenHeightHalves(i, n);
    if i / 2 == n / 2 {
      LastLeaf(n);
    } else {
      var height := EigenHeight(i / 2, n / 2);
      EigenAddress(i / 2, n / 2);
      LiesUnderDoubled(i, n, EigenIndex(n / 2, height), height);
    }
  }

  lemma LiesUnderDoubled(i: nat, n: nat, peak: nat, height: nat)
    requires n > 0 && LiesUnder(i / 2, n / 2, peak, height)
    ensures LiesUnder(i, n, peak, height + 1)
  {
    var mask := Pow2(height) - 1;
    assert Pow2(height + 1) - 1 == 2 * mask + 1;
    AndOdd(n, mask);
    AndOdd(i, mask);
    PeakStartDoubles(n, peak);
  }

  lemma AndOdd(a: nat, mask: nat)
    ensures And(a, 2 * mask + 1) == 2 * And(a / 2, mask) + a % 2
    ensures CountOnes(And(a, 2 * mask + 1)) == CountOnes(And(a / 2, mask)) + a % 2
  {
    if a > 0 {
      assert (2 * mask + 1) / 2 == mask;
      assert And(a, 2 * mask + 1) == 2 * And(a / 2, mask) + a % 2;
    }
    CountOnesDouble(And(a / 2, mask), a % 2);
  }

  lemma CountOnesDouble(a: nat, bit: nat)
    requires bit < 2
    ensures CountOnes(2 * a + bit) == CountOnes(a) + bit
  {
    assert (2 * a + bit) / 2 == a && (2 * a + bit) % 2 == bit;
  }

  /** When `n` is odd its last leaf is a peak of its own. */
  lemma LastLeaf(n: nat)
    requires n % 2 == 1
    ensures CountOnes(n) > 0 && PeakHeights(n)[CountOnes(n) - 1] == 0
    ensures PeakStart(n, CountOnes(n) - 1) == n - 1
    ensures And(n, 0) == 0 && And(n - 1, 0) == 0
  {
    PeakHeightsTotal(n);
  }

  /** The peak's leaf range contains the index, and the path below its leading one-bit is the offset in that range. */
  ghost predicate IsAddress(i: nat, n: nat, path: nat, peak: nat)
  {
    && peak < CountOnes(n)
    && PeakStart(n, peak) <= i < PeakStart(n, peak) + Pow2(PeakHeights(n)[peak])
    && path == Pow2(PeakHeights(n)[peak]) + (i - PeakStart(n, peak))
  }

  /**
  The path to a leaf, as a number whose leading one-bit stands for the peak, and the index of that peak.
  */
  function PathForEigenRoot(leafIndex: u64, leafCount: u64): (r: Result<(u64, u64)>)
    ensures r.Ok? <==> leafIndex < leafCount
    ensures r.Ok? ==> r.value.0 > 0 && IsAddress(leafIndex, leafCount, r.value.0, r.value.1)
  {
    if leafIndex >= leafCount then Err
    else
      EigenWithinWord(leafIndex, leafCount);
      EigenAddress(leafIndex, leafCount);
      var diff := Xor(leafIndex, leafCount);
      var eigentreeHeight := 64 - LeadingZeros(diff) - 1;
      var mergeHeight := Pow2(eigentreeHeight);
      var bitmask := mergeHeight - 1;
      var eigentreeCount := CountOnes(leafCount);
      var offset := CountOnes(And(leafCount, bitmask));
      var eigenIndex := eigentreeCount - offset - 1;
      var localOffset := And(leafIndex, bitmask);
      Ok((localOffset + mergeHeight, eigenIndex))
  }

  /** None of the 64-bit operations in `PathForEigenRoot` overflows or underflows. */
  lemma EigenWithinWord(i: u64, n: u64)
    requires i < n
    ensures 0 < Xor(i, n) <= U64_MAX && BitLength(Xor(i, n)) <= 64
    ensures EigenHeight(i, n) == 64 - LeadingZeros(Xor(i, n)) - 1
    ensures 0 <= EigenIndex(n, EigenHeight(i, n)) < 64
    ensures And(i, Pow2(EigenHeight(i, n)) - 1) + Pow2(EigenHeight(i, n)) <= U64_MAX
  {
    EigenAddress(i, n);
    XorDistinct(i, n);
    Pow2Of64();
    XorBound(i, n, 64);
    BitLengthOfU64(Xor(i, n));
    Pow2Monotone(EigenHeight(i, n) + 1, 64);
    CountOnesBound(n, 64);
  }

  lemma {:induction false} CountOnesBound(a: nat, width: nat)
    requires a < Pow2(width)
    ensures CountOnes(a) <= width
  {
    if a == 0 {
    } else {
      CountOnesBound(a / 2, width - 1);
    }
  }

  /** The leaf ranges of different peaks do not meet. */
  lemma {:induction false} PeakRangesOrdered(n: nat, j: nat, k: nat)
    requires j < k < CountOnes(n)
    ensures PeakStart(n, j) + Pow2(PeakHeights(n)[j]) <= PeakStart(n, k)
    decreases k
  {
    var hs := PeakHeights(n);
    assert hs[..j + 1][..j] == hs[..j];
    if j + 1 == k {
    } else {
      PeakRangesOrdered(n, j, k - 1);
      assert hs[..k][..k - 1] == hs[..k - 1];
    }
  }

  /** The peak that `PathForEigenRoot` names is the only one whose range contains the leaf. */
  lemma AddressUnique(i: u64, n: u64, k: nat)
    requires i < n && k < CountOnes(n)
    requires PeakStart(n, k) <= i < PeakStart(n, k) + Pow2(PeakHeights(n)[k])
    ensures PathForEigenRoot(i, n).value.1 == k
  {
    var peak := PathForEigenRoot(i, n).value.1;
    if peak < k {
      PeakRangesOrdered(n, peak, k);
    } else if k < peak {
      PeakRangesOrdered(n, k, peak);
    }
  }

  /** Different leaves have different addresses. */
  lemma AddressInjective(i: u64, j: u64, n: u64)
    requires i < n && j < n
    requires PathForEigenRoot(i, n) == PathForEigenRoot(j, n)
    ensures i == j
  {
  }
}
