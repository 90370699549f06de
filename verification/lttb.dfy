/** Largest-Triangle-Three-Buckets downsampling, as the LTTB function of
    lttb.go does it. The first and the last point are always kept; the
    interior is cut into threshold - 2 buckets, and from each bucket the
    point is kept that spans the largest triangle with the point kept
    before it and the centroid of the bucket after it. */
module Lttb {
  import opened Geometry
  import opened Buckets

  /** The ranking measure of candidate `k`. */
  function AreaAt(data: seq<Point>, pa: Point, c: Point, k: nat): real
    requires k < |data|
  {
    TriangleArea(pa, data[k], c)
  }

  /** The outcome of one candidate scan: with `pa` the anchor point and `c`
      the reference point, the scan over [lo, hi) yields the first index
      of strictly positive, maximal area; when no candidate has positive
      area it yields index 0, the running index's initial value, and NOT
      an index of the range. */
  ghost predicate IsPick(data: seq<Point>, pa: Point, c: Point, lo: nat, hi: nat, r: nat)
    requires lo <= hi <= |data|
  {
    || (r == 0 && forall k :: lo <= k < hi ==> AreaAt(data, pa, c, k) <= 0.0)
    || (&& lo <= r < hi
        && 0.0 < AreaAt(data, pa, c, r)
        && (forall k :: lo <= k < hi ==> AreaAt(data, pa, c, k) <= AreaAt(data, pa, c, r))
        && (forall k :: lo <= k < r ==> AreaAt(data, pa, c, k) < AreaAt(data, pa, c, r)))
  }

  /** The scan is determined by its inputs: at most one index meets
      IsPick, so ties between equal areas are always settled the same
      way (the earliest wins). */
  lemma PickUnique(data: seq<Point>, pa: Point, c: Point, lo: nat, hi: nat, r1: nat, r2: nat)
    requires lo <= hi <= |data|
    requires IsPick(data, pa, c, lo, hi, r1)
    requires IsPick(data, pa, c, lo, hi, r2)
    ensures r1 == r2
  {
  }

  /** One iteration's pick is determined by its anchor. */
  lemma BucketPickUnique(data: seq<Point>, t: int, i: nat, anchor: nat, p: nat, q: nat)
    requires 3 <= t < |data|
    requires BucketPick(data, t, i, anchor, p)
    requires BucketPick(data, t, i, anchor, q)
    ensures p == q
  {
    var n := |data|;
    BucketRanges(i, n, t);
    PickUnique(data, data[anchor], Reference(data, t, i), ScanStart(i, n, t), Bound(i + 1, n, t), p, q);
  }

  /** The candidate scan: running maximum `maxArea` and running index
      `nextA`, both starting at zero, replaced only on a strictly larger
      area. */
  method SelectInBucket(data: seq<Point>, pa: Point, c: Point, lo: nat, hi: nat) returns (nextA: nat)
    requires lo <= hi <= |data|
    ensures IsPick(data, pa, c, lo, hi, nextA)
  {
    var maxArea := 0.0;
    nextA := 0;
    var k := lo;
    while k < hi
      invariant lo <= k <= hi
      invariant
        || (&& nextA == 0 && maxArea == 0.0
            && forall j :: lo <= j < k ==> AreaAt(data, pa, c, j) <= 0.0)
        || (&& lo <= nextA < k
            && maxArea == AreaAt(data, pa, c, nextA) && 0.0 < maxArea
            && (forall j :: lo <= j < k ==> AreaAt(data, pa, c, j) <= maxArea)
            && (forall j :: lo <= j < nextA ==> AreaAt(data, pa, c, j) < maxArea))
    {
      var area := AreaAt(data, pa, c, k);
      if area > maxArea {
        maxArea := area;
        nextA := k;
      }
      k := k + 1;
    }
  }

  /** The averaging loop: sums both coordinates over [lo, hi) front to
      back, then divides by the length of the range. */
  method AverageOf(data: seq<Point>, lo: nat, hi: nat) returns (avg: Point)
    requires lo < hi <= |data|
    ensures avg == Centroid(data, lo, hi)
  {
    var avgX, avgY := 0.0, 0.0;
    var k := lo;
    while k < hi
      invariant lo <= k <= hi
      invariant avgX == SumX(data, lo, k) && avgY == SumY(data, lo, k)
    {
      avgX := avgX + data[k].x;
      avgY := avgY + data[k].y;
      k := k + 1;
    }
    var len := (hi - lo) as real;
    avgX := avgX / len;
    avgY := avgY / len;
    avg := Point(avgX, avgY);
  }

  /** The anchor of iteration `i`: index 0 at first, then the previous
      iteration's pick. */
  function Anchor(picks: seq<nat>, i: nat): nat
    requires i <= |picks|
  {
    if i == 0 then 0 else picks[i - 1]
  }

  /** The reference point of iteration `i`: the centroid of the next
      bucket [Bound(i + 1), Bound(i + 2)), clamped to the input. */
  function Reference(data: seq<Point>, t: int, i: nat): Point
    requires 3 <= t < |data| && i < t - 2
  {
    var n := |data|;
    BucketRanges(i, n, t);
    Centroid(data, Bound(i + 1, n, t), Min(Bound(i + 2, n, t), n))
  }

  /** `pick` is what iteration `i` of the bucket loop selects from an input
      of n points downsampled to t, given the anchor index: the scan range
      is [ScanStart(i), Bound(i + 1)) and the reference point is the
      centroid of [Bound(i + 1), min(Bound(i + 2), n)). */
  ghost predicate BucketPick(data: seq<Point>, t: int, i: nat, anchor: nat, pick: nat)
    requires 3 <= t < |data|
  {
    if i < t - 2 && anchor < |data| then
      var n := |data|;
      BucketRanges(i, n, t);
      IsPick(data, data[anchor], Reference(data, t, i), ScanStart(i, n, t), Bound(i + 1, n, t), pick)
    else
      false
  }

  /** The first |picks| iterations of the bucket loop chose `picks`,
      in order. */
  ghost predicate ValidPicks(data: seq<Point>, t: int, picks: seq<nat>)
    requires 3 <= t < |data|
    decreases |picks|
  {
    if |picks| == 0 then true
    else
      var m := |picks| - 1;
      && ValidPicks(data, t, picks[..m])
      && BucketPick(data, t, m, Anchor(picks, m), picks[m])
  }

  /** One more iteration extends a valid selection. */
  lemma ValidPicksExtend(data: seq<Point>, t: int, picks: seq<nat>, p: nat)
    requires 3 <= t < |data|
    requires ValidPicks(data, t, picks)
    requires BucketPick(data, t, |picks|, Anchor(picks, |picks|), p)
    ensures ValidPicks(data, t, picks + [p])
  {
    var picks' := picks + [p];
    assert picks'[..|picks|] == picks;
    assert Anchor(picks', |picks|) == Anchor(picks, |picks|);
  }

  /** Iteration `i` of a valid selection picked `picks[i]` from bucket `i`,
      against the anchor left by iteration i - 1; and there are at most
      t - 2 iterations. */
  lemma {:induction false} ValidPicksAt(data: seq<Point>, t: int, picks: seq<nat>, i: nat)
    requires 3 <= t < |data|
    requires ValidPicks(data, t, picks)
    requires i < |picks|
    ensures i < t - 2
    ensures picks[i] < |data|
    ensures BucketPick(data, t, i, Anchor(picks, i), picks[i])
    decreases |picks|
  {
    var m := |picks| - 1;
    if i < m {
      var init := picks[..m];
      ValidPicksAt(data, t, init, i);
      assert init[i] == picks[i];
      assert Anchor(init, i) == Anchor(picks, i);
    }
    BucketRanges(i, |data|, t);
  }

  /** Every candidate of iteration `i`'s scan range has zero area
      against the anchor and the reference point. */
  ghost predicate FlatBucket(data: seq<Point>, t: int, i: nat, anchor: nat)
    requires 3 <= t < |data| && i < t - 2 && anchor < |data|
  {
    var n := |data|;
    BucketRanges(i, n, t);
    forall k :: ScanStart(i, n, t) <= k < Bound(i + 1, n, t) ==>
      AreaAt(data, data[anchor], Reference(data, t, i), k) == 0.0
  }

  /** A pick of the code as written is either index 0 or an index of its
      own scan range, and it is 0 exactly when every candidate of the range
      has zero area. In the first iteration index 0 is itself a candidate,
      but as the anchor it scores zero, so it too is only reached through
      the zero-area fallback. */
  lemma PickFromOwnRange(data: seq<Point>, t: int, i: nat, anchor: nat, p: nat)
    requires 3 <= t < |data|
    requires BucketPick(data, t, i, anchor, p)
    requires i == 0 ==> anchor == 0
    ensures i < t - 2 && anchor < |data|
    ensures p == 0 || ScanStart(i, |data|, t) <= p < Bound(i + 1, |data|, t)
    ensures p == 0 <==> FlatBucket(data, t, i, anchor)
  {
    var n := |data|;
    BucketRanges(i, n, t);
    if i > 0 {
      BoundEnds(n, t);
      BoundMonotone(0, i, n, t);
    }
    var lo, hi, c := ScanStart(i, n, t), Bound(i + 1, n, t), Reference(data, t, i);
    assert IsPick(data, data[anchor], c, lo, hi, p);
    assert lo == 0 ==> AreaAt(data, data[anchor], c, 0) == 0.0;
    PickZeroIffFlat(data, data[anchor], c, lo, hi, p);
  }

  /** A scan whose range either excludes index 0 or gives it zero area
      returns 0 exactly when no candidate has positive area, and otherwise
      an index of the range. */
  lemma PickZeroIffFlat(data: seq<Point>, pa: Point, c: Point, lo: nat, hi: nat, r: nat)
    requires lo <= hi <= |data|
    requires IsPick(data, pa, c, lo, hi, r)
    requires lo == 0 < hi ==> AreaAt(data, pa, c, 0) == 0.0
    ensures r == 0 || lo <= r < hi
    ensures r == 0 <==> forall k :: lo <= k < hi ==> AreaAt(data, pa, c, k) == 0.0
  {
  }

  /** Apart from zero-area fallbacks to index 0, the picks of a valid
      selection come from the interior and strictly increase. */
  lemma NonzeroPicksIncrease(data: seq<Point>, t: int, picks: seq<nat>)
    requires 3 <= t < |data|
    requires ValidPicks(data, t, picks)
    ensures forall i :: 0 <= i < |picks| && picks[i] != 0 ==> picks[i] < |data| - 1
    ensures forall i, j :: 0 <= i < j < |picks| && picks[i] != 0 && picks[j] != 0 ==> picks[i] < picks[j]
  {
    var n := |data|;
    forall i | 0 <= i < |picks| && picks[i] != 0
      ensures ScanStart(i, n, t) <= picks[i] < Bound(i + 1, n, t) <= n - 1
    {
      ValidPicksAt(data, t, picks, i);
      PickFromOwnRange(data, t, i, Anchor(picks, i), picks[i]);
      BucketRanges(i, n, t);
    }
    forall i, j | 0 <= i < j < |picks| && picks[i] != 0 && picks[j] != 0
      ensures picks[i] < picks[j]
    {
      BoundMonotone(i + 1, j, n, t);
    }
  }

  /** A complete or partial selection is determined by its length: two
      selections that both follow the bucket loop for m iterations are
      equal. */
  lemma {:induction false} PicksUnique(data: seq<Point>, t: int, p1: seq<nat>, p2: seq<nat>)
    requires 3 <= t < |data|
    requires ValidPicks(data, t, p1) && ValidPicks(data, t, p2)
    requires |p1| == |p2|
    ensures p1 == p2
    decreases |p1|
  {
    if |p1| > 0 {
      var m := |p1| - 1;
      PicksUnique(data, t, p1[..m], p2[..m]);
      assert Anchor(p1, m) == Anchor(p2, m) by {
        if m > 0 {
          assert p1[m - 1] == p1[..m][m - 1];
          assert p2[m - 1] == p2[..m][m - 1];
        }
      }
      BucketPickUnique(data, t, m, Anchor(p1, m), p1[m], p2[m]);
      assert p1 == p1[..m] + [p1[m]];
      assert p2 == p2[..m] + [p2[m]];
    }
  }

  /** An output assembled from the first point, points at the picked
      indices and the last point holds nothing but input points. */
  lemma AssembledFromInput(data: seq<Point>, picks: seq<nat>, sampled: seq<Point>)
    requires |data| > 0
    requires |sampled| == |picks| + 2
    requires sampled[0] == data[0] && sampled[|sampled| - 1] == data[|data| - 1]
    requires forall j :: 0 <= j < |picks| ==> picks[j] < |data| && sampled[j + 1] == data[picks[j]]
    ensures forall j :: 0 <= j < |sampled| ==> sampled[j] in data
  {
    forall j | 0 <= j < |sampled|
      ensures sampled[j] in data
    {
      if 0 < j < |sampled| - 1 {
        assert sampled[j] == data[picks[j - 1]];
      }
    }
  }

  /** One iteration of the bucket loop: average the next bucket
      [bucketCenter, bucketEnd), clamped to the input, and scan the current
      bucket [bucketStart, bucketCenter) against the anchor. */
  method BucketStep(data: seq<Point>, t: int, i: nat, a: nat, bucketStart: nat, bucketCenter: nat, bucketEnd: int)
    returns (nextA: nat)
    requires 3 <= t < |data| && i < t - 2 && a < |data|
    requires bucketStart == ScanStart(i, |data|, t)
    requires bucketCenter == Bound(i + 1, |data|, t)
    requires bucketEnd == Bound(i + 2, |data|, t)
    ensures nextA < |data|
    ensures BucketPick(data, t, i, a, nextA)
  {
    var n := |data|;
    BucketRanges(i, n, t);
    var avgRangeEnd := bucketEnd;
    if avgRangeEnd >= n {
      avgRangeEnd := n;
    }
    assert avgRangeEnd == Min(bucketEnd, n);
    var avg := AverageOf(data, bucketCenter, avgRangeEnd);
    nextA := SelectInBucket(data, data[a], avg, bucketStart, bucketCenter);
  }

  /** The bucket loop, for 3 <= t < n: one pick per interior bucket,
      starting from anchor 0 and the first bucket [0, Bound(1)). Returns
      the picked points in order, and (as ghost) their input indices. */
  method BucketLoop(data: seq<Point>, t: int) returns (interior: seq<Point>, ghost picks: seq<nat>)
    requires 3 <= t < |data|
    ensures |interior| == t - 2
    ensures forall j :: 0 <= j < |interior| ==> interior[j] in data
    ensures |picks| == t - 2
    ensures forall j :: 0 <= j < |picks| ==> picks[j] < |data| && interior[j] == data[picks[j]]
    ensures ValidPicks(data, t, picks)
  {
    var n := |data|;
    interior, picks := [], [];
    var bucketStart := 0;
    var bucketCenter := Bound(1, n, t);
    var a := 0;
    var i := 0;
    while i < t - 2
      invariant 0 <= i <= t - 2
      invariant |picks| == i && |interior| == i
      invariant forall j :: 0 <= j < i ==> picks[j] < n && interior[j] == data[picks[j]]
      invariant bucketStart == ScanStart(i, n, t)
      invariant bucketCenter == Bound(i + 1, n, t)
      invariant a == Anchor(picks, i) && a < n
      invariant ValidPicks(data, t, picks)
    {
      var bucketEnd := Bound(i + 2, n, t);
      BucketRanges(i, n, t);
      var nextA := BucketStep(data, t, i, a, bucketStart, bucketCenter, bucketEnd);
      ValidPicksExtend(data, t, picks, nextA);

      interior := interior + [data[nextA]];
      picks := picks + [nextA];
      a := nextA;

      bucketStart := bucketCenter;
      bucketCenter := bucketEnd;
      i := i + 1;
    }
  }

  /** LTTB. A threshold of zero, or one not below the number of points,
      returns the input unchanged. Otherwise the output holds the first
      point, one point per interior bucket, and the last point; `picks`
      records which input index each interior output point came from.
      With threshold 1 or 2 there are no interior buckets and the output
      is just the two endpoints. The picks other than zero-area fallbacks
      to index 0 strictly increase. */
  method Downsample(data: seq<Point>, threshold: int) returns (sampled: seq<Point>, ghost picks: seq<nat>)
    requires 0 <= threshold
    ensures threshold == 0 || threshold >= |data| ==> sampled == data
    ensures 0 < threshold < |data| ==>
      && |sampled| == (if threshold == 1 then 2 else threshold)
      && sampled[0] == data[0]
      && sampled[|sampled| - 1] == data[|data| - 1]
    ensures 0 < threshold < |data| ==>
      && |picks| == |sampled| - 2
      && forall j :: 0 <= j < |picks| ==> picks[j] < |data| && sampled[j + 1] == data[picks[j]]
    ensures 3 <= threshold < |data| ==> ValidPicks(data, threshold, picks)
    ensures forall i, j :: 0 <= i < j < |picks| && picks[i] != 0 && picks[j] != 0 ==> picks[i] < picks[j]
    ensures forall j :: 0 <= j < |sampled| ==> sampled[j] in data
  {
    var n := |data|;
    picks := [];
    if threshold >= n || threshold == 0 {
      sampled := data;
      return;
    }
    var interior := [];
    if threshold > 2 {
      interior, picks := BucketLoop(data, threshold);
      NonzeroPicksIncrease(data, threshold, picks);
    }
    sampled := [data[0]] + interior + [data[n - 1]];
    AssembledFromInput(data, picks, sampled);
  }
}
