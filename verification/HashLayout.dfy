/**
 Sizes of the bucket array: a power of two chosen by `shifts`, the load limit that goes with it,
 and how a 64-bit hash selects a home bucket and a fingerprint.
 */
module HashLayout {
  import opened Powers
  import opened RobinHood

  type Hash64 = h: nat | h < Pow2(64) witness 0

  const INITIAL_SHIFTS: nat := 62
  const MIN_SHIFTS: nat := 32

  // As many as 32-bit bucket indices can tell apart.
  const MAX_BUCKETS: nat := 0x1_0000_0000

  function BucketCount(shifts: nat): (n: nat)
    requires 0 < shifts <= 64
  {
    if shifts <= MIN_SHIFTS then MAX_BUCKETS else Pow2(64 - shifts)
  }

  // float(n) * 0.8F, truncated. 0.8F is 13421773 / 2^24 and n is a power of two, so the product is exact.
  function Capacity(n: nat): (c: nat)
    ensures n > 0 ==> c < n
  {
    n * 13421773 / 16777216
  }

  // How many values a bucket array takes before it grows; the largest one does not grow any more.
  function LoadLimit(n: nat): (c: nat)
  {
    if n == MAX_BUCKETS then n else Capacity(n)
  }

  function Quotient(h: nat, p: nat): (r: nat)
    requires p > 0
  {
    h / p
  }

  // The high bits of the hash are the home bucket, the low byte is the fingerprint.
  function TagOf(h: Hash64, shifts: nat): (t: Tag)
  {
    Tag(Quotient(h, Pow2(shifts)), h % DIST_INC)
  }

  // Four fifths of the buckets, cut to an integer, up to the rounding of the factor by one part in 2^26.
  lemma CapacityIsFourFifths(n: nat)
    ensures 4 * n - 5 < 5 * Capacity(n) <= 4 * n + n / 16777216
  {
  }

  // The bits of the hash above the shift, and the low byte.
  lemma TagReadsHash(h: Hash64, shifts: nat)
    ensures var t := TagOf(h, shifts);
            && t.home * Pow2(shifts) <= h < (t.home + 1) * Pow2(shifts)
            && t.fp < 256 && (h - t.fp) % 256 == 0
  {
    hide Pow2, Quotient;
    QuotientBrackets(h, Pow2(shifts));
  }

  lemma QuotientBrackets(h: nat, p: nat)
    requires p > 0
    ensures Quotient(h, p) * p <= h < (Quotient(h, p) + 1) * p
  {
  }

  lemma QuotientBelow(h: nat, p: nat, q: nat)
    requires p > 0 && h < p * q
    ensures Quotient(h, p) < q
  {
  }

  // Every hash selects a bucket of the array.
  lemma HomeInRange(h: Hash64, shifts: nat)
    requires MIN_SHIFTS <= shifts <= 64
    ensures TagOf(h, shifts).home < BucketCount(shifts) && TagOf(h, shifts).fp < DIST_INC
  {
    Pow2Sum(shifts, 64 - shifts);
    TopCount();
    QuotientBelow(h, Pow2(shifts), BucketCount(shifts));
  }

  lemma TopCount()
    ensures Pow2(32) == MAX_BUCKETS
  {
    Pow2Sum(16, 16);
    Pow2Sum(8, 8);
    assert Pow2(8) == 256;
  }

  lemma {:induction false} BucketCountGrows(s: nat, t: nat)
    requires 0 < s <= t <= 64
    ensures BucketCount(t) <= BucketCount(s)
    decreases t - s
  {
    TopCount();
    if s < t {
      BucketCountGrows(s + 1, t);
    }
  }

  lemma BucketCountRange(shifts: nat)
    requires MIN_SHIFTS <= shifts <= INITIAL_SHIFTS
    ensures 4 <= BucketCount(shifts) <= MAX_BUCKETS
  {
    BucketCountGrows(shifts, INITIAL_SHIFTS);
    BucketCountGrows(MIN_SHIFTS, shifts);
    assert BucketCount(INITIAL_SHIFTS) == Pow2(2) == 4;
  }

  lemma CapacityMonotone(m: nat, n: nat)
    requires m <= n
    ensures Capacity(m) <= Capacity(n)
  {
  }

  // Doubling the buckets always makes room for at least one more value.
  lemma DoublingMakesRoom(shifts: nat)
    requires MIN_SHIFTS < shifts <= INITIAL_SHIFTS
    ensures BucketCount(shifts - 1) == 2 * BucketCount(shifts)
    ensures LoadLimit(BucketCount(shifts - 1)) > LoadLimit(BucketCount(shifts))
  {
    BucketCountRange(shifts);
    BucketCountRange(shifts - 1);
    TopCount();
  }

  // A table that is full but holds fewer values than there can be buckets has not reached the top size.
  lemma FullMeansGrowable(shifts: nat, size: nat)
    requires MIN_SHIFTS <= shifts <= INITIAL_SHIFTS
    requires LoadLimit(BucketCount(shifts)) < size <= MAX_BUCKETS
    ensures shifts > MIN_SHIFTS
  {
  }
}
