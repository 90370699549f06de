/** Bucket boundaries. The interior of an input of `n` points (every index
    but the first and the last) is cut into `t - 2` buckets of real width
    every = (n - 2) / (t - 2); bucket `k` ends just before index
    floor((k + 1) * every) + 1. The floor of a non-negative rational is
    written exactly as an integer division. */
module Buckets {

  function Min(a: int, b: int): int
  {
    if a <= b then a else b
  }

  /** floor(k * every) + 1, with every = (n - 2) / (t - 2): the index at
      which bucket `k` starts and bucket `k - 1` ends. The floor of the
      non-negative rational k * (n - 2) / (t - 2) is the integer quotient. */
  function Bound(k: nat, n: nat, t: int): int
    requires 2 < t && 2 <= n
  {
    (k * (n - 2)) / (t - 2) + 1
  }

  /** Where iteration `i` starts scanning for a candidate: the previous
      iteration's bucket center, except that the very first scan starts at
      index 0 rather than at Bound(0) == 1. */
  function ScanStart(i: nat, n: nat, t: int): int
    requires 2 < t && 2 <= n
  {
    if i == 0 then 0 else Bound(i, n, t)
  }

  lemma MulMonotone(a: int, b: int, d: int)
    requires 0 < d && a <= b
    ensures a * d <= b * d
  {
    assert b * d - a * d == (b - a) * d;
  }

  lemma DivMonotone(x: int, y: int, d: int)
    requires 0 < d && x <= y
    ensures x / d <= y / d
  {
    var qx, qy := x / d, y / d;
    if qx > qy {
      MulMonotone(qy + 1, qx, d);
      assert false;
    }
  }

  /** The quotient is the one q with q * d <= x < (q + 1) * d. */
  lemma DivUnique(x: int, d: int, q: int)
    requires 0 < d && q * d <= x < q * d + d
    ensures x / d == q
  {
    var q' := x / d;
    if q' < q {
      MulMonotone(q' + 1, q, d);
      assert false;
    }
    if q < q' {
      MulMonotone(q + 1, q', d);
      assert false;
    }
  }

  lemma DivShift(x: int, d: int)
    requires 0 < d
    ensures (x + d) / d == x / d + 1
  {
    var q := x / d;
    assert q * d <= x < q * d + d;
    assert (q + 1) * d == q * d + d;
    DivUnique(x + d, d, q + 1);
  }

  /** A real quotient lies between any two bounds that bracket the
      dividend once scaled by the divisor. */
  lemma RealQuotientBetween(x: real, d: real, lo: real, hi: real)
    requires 0.0 < d && lo * d <= x < hi * d
    ensures lo <= x / d < hi
  {
    var q := x / d;
    assert q * d == x;
    assert (q - lo) * d == x - lo * d;
    assert (hi - q) * d == hi * d - x;
  }

  /** Integer division by a positive divisor is the floor of the real
      quotient. */
  lemma QuotientIsFloor(x: int, d: int)
    requires 0 < d
    ensures (x / d) as real <= x as real / d as real < (x / d + 1) as real
  {
    var q := x / d;
    assert q * d <= x < (q + 1) * d;
    assert (q * d) as real == q as real * d as real;
    assert ((q + 1) * d) as real == (q + 1) as real * d as real;
    RealQuotientBetween(x as real, d as real, q as real, (q + 1) as real);
  }

  /** Bound(k) - 1 is the floor of k * every, computed over the reals as
      the code does with float64 (before any rounding). */
  lemma BoundIsFloor(k: nat, n: nat, t: int)
    requires 2 < t && 2 <= n
    ensures var every := (n - 2) as real / (t - 2) as real;
            (Bound(k, n, t) - 1) as real <= k as real * every < Bound(k, n, t) as real
  {
    var x, d := k * (n - 2), t - 2;
    QuotientIsFloor(x, d);
    var every := (n - 2) as real / d as real;
    assert k as real * every == x as real / d as real by {
      assert x as real == k as real * (n - 2) as real;
    }
  }

  /** Bucket boundaries never move backwards. */
  lemma BoundMonotone(j: nat, k: nat, n: nat, t: int)
    requires 2 < t && 2 <= n
    requires j <= k
    ensures Bound(j, n, t) <= Bound(k, n, t)
  {
    assert j * (n - 2) <= k * (n - 2);
    DivMonotone(j * (n - 2), k * (n - 2), t - 2);
  }

  /** When there are more points than the target, every is above one, so
      consecutive boundaries are distinct and no bucket is empty. */
  lemma BoundStep(k: nat, n: nat, t: int)
    requires 2 < t < n
    ensures Bound(k, n, t) < Bound(k + 1, n, t)
  {
    var x, d := k * (n - 2), t - 2;
    assert (k + 1) * (n - 2) == x + (n - 2);
    DivMonotone(x + d, x + (n - 2), d);
    DivShift(x, d);
  }

  /** Bound(t - 2) == n - 1 is the last iteration's bucketCenter: the last
      scan stops just before the last point. Bound(0) == 1 is where the
      corrected variant's first bucket starts; the code as written never
      computes Bound(0), since its first scan starts at index 0. */
  lemma BoundEnds(n: nat, t: int)
    requires 2 < t && 2 <= n
    ensures Bound(0, n, t) == 1
    ensures Bound(t - 2, n, t) == n - 1
  {
    assert (t - 2) * (n - 2) == (n - 2) * (t - 2);
    DivUnique((t - 2) * (n - 2), t - 2, n - 2);
  }

  /** The index ranges iteration `i` touches, for 3 <= t < n: the scan
      range [ScanStart(i), Bound(i + 1)) and the averaging range
      [Bound(i + 1), min(Bound(i + 2), n)) are both non-empty, the scan
      range ends before the last point, and the averaging range stays
      inside the input. */
  lemma BucketRanges(i: nat, n: nat, t: int)
    requires 3 <= t < n && i < t - 2
    ensures 0 <= ScanStart(i, n, t) < Bound(i + 1, n, t) < Bound(i + 2, n, t)
    ensures Bound(i + 1, n, t) <= n - 1
    ensures Bound(i + 1, n, t) < Min(Bound(i + 2, n, t), n) <= n
  {
    BoundEnds(n, t);
    BoundStep(i, n, t);
    BoundStep(i + 1, n, t);
    BoundMonotone(0, i, n, t);
    BoundMonotone(i + 1, t - 2, n, t);
  }

  /** In the last iteration the averaging range is the single last point:
      its end is clamped from Bound(t - 1) >= n down to n. */
  lemma LastAveragingRange(n: nat, t: int)
    requires 3 <= t < n
    ensures Bound(t - 2, n, t) == n - 1
    ensures Min(Bound(t - 1, n, t), n) == n
  {
    BoundEnds(n, t);
    BoundStep(t - 2, n, t);
  }

  /** The iteration whose scan range holds index `k`, searching from
      iteration `i` on: the scan ranges [ScanStart(j), Bound(j + 1)) of
      consecutive iterations abut, so together they cover every index from
      the first point up to, but not including, the last point. */
  ghost function BucketOf(k: int, n: nat, t: int, i: nat): (j: nat)
    requires 3 <= t < n && i < t - 2
    requires ScanStart(i, n, t) <= k < n - 1
    ensures i <= j < t - 2
    ensures ScanStart(j, n, t) <= k < Bound(j + 1, n, t)
    decreases t - 2 - i
  {
    BucketRanges(i, n, t);
    BoundEnds(n, t);
    if k < Bound(i + 1, n, t) then i
    else BucketOf(k, n, t, i + 1)
  }

  /** Distinct iterations scan disjoint ranges. */
  lemma ScanRangesDisjoint(k: int, i: nat, j: nat, n: nat, t: int)
    requires 3 <= t < n && i < t - 2 && j < t - 2
    requires ScanStart(i, n, t) <= k < Bound(i + 1, n, t)
    requires ScanStart(j, n, t) <= k < Bound(j + 1, n, t)
    ensures i == j
  {
    if i < j {
      BoundMonotone(i + 1, j, n, t);
      assert false;
    }
    if j < i {
      BoundMonotone(j + 1, i, n, t);
      assert false;
    }
  }

  /** The scan ranges tile [0, n - 1): each index of it is scanned by
      exactly one iteration, and no iteration scans the last point. */
  lemma ScanRangesTile(k: int, n: nat, t: int)
    requires 3 <= t < n && 0 <= k < n - 1
    ensures exists j :: 0 <= j < t - 2 && ScanStart(j, n, t) <= k < Bound(j + 1, n, t)
    ensures forall i, j ::
              (&& 0 <= i < t - 2 && 0 <= j < t - 2
               && ScanStart(i, n, t) <= k < Bound(i + 1, n, t)
               && ScanStart(j, n, t) <= k < Bound(j + 1, n, t)) ==> i == j
  {
    var j := BucketOf(k, n, t, 0);
    forall i, j | 0 <= i < t - 2 && 0 <= j < t - 2 &&
      ScanStart(i, n, t) <= k < Bound(i + 1, n, t) &&
      ScanStart(j, n, t) <= k < Bound(j + 1, n, t)
      ensures i == j
    {
      ScanRangesDisjoint(k, i, j, n, t);
    }
  }
}
