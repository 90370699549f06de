/** A bucket whose candidates all have zero area (collinear data, or a
    bucket lying on the line from the anchor to the next centroid) makes the
    loop of lttb.go emit data[0] again, because the running index restarts
    at 0 in every iteration and is replaced only on a strictly positive
    area. This module gives the definition the algorithm evidently intends
    (every interior pick comes from its own bucket), proves that its output
    indices strictly increase, and exhibits an input on which the code as
    written repeats the first point. */
module LttbFixed {
  import opened Geometry
  import opened Buckets
  import opened Lttb

  /** The first index of maximal area in the non-empty range [lo, hi). */
  ghost predicate IsFirstMax(data: seq<Point>, pa: Point, c: Point, lo: nat, hi: nat, r: nat)
    requires lo < hi <= |data|
  {
    && lo <= r < hi
    && (forall k :: lo <= k < hi ==> AreaAt(data, pa, c, k) <= AreaAt(data, pa, c, r))
    && (forall k :: lo <= k < r ==> AreaAt(data, pa, c, k) < AreaAt(data, pa, c, r))
  }

  /** The corrected scan: the running maximum starts below every possible
      area, so the first candidate is always taken and the result always
      lies in the bucket. */
  method SelectInBucketFixed(data: seq<Point>, pa: Point, c: Point, lo: nat, hi: nat) returns (nextA: nat)
    requires lo < hi <= |data|
    ensures IsFirstMax(data, pa, c, lo, hi, nextA)
  {
    var maxArea := -1.0;
    nextA := lo;
    var k := lo;
    while k < hi
      invariant lo <= k <= hi
      invariant k == lo ==> maxArea == -1.0 && nextA == lo
      invariant lo < k ==> lo <= nextA < k && maxArea == AreaAt(data, pa, c, nextA)
      invariant forall j :: lo <= j < k ==> AreaAt(data, pa, c, j) <= maxArea
      invariant forall j :: lo <= j < nextA ==> AreaAt(data, pa, c, j) < maxArea
    {
      var area := AreaAt(data, pa, c, k);
      if area > maxArea {
        maxArea := area;
        nextA := k;
      }
      k := k + 1;
    }
  }

  /** The two scans differ only on buckets without a positive area: when
      some candidate has positive area, the code as written and the
      corrected scan pick the same index. */
  lemma ScansAgreeOnPositiveArea(data: seq<Point>, pa: Point, c: Point, lo: nat, hi: nat, r1: nat, r2: nat, w: nat)
    requires lo <= w < hi <= |data|
    requires 0.0 < AreaAt(data, pa, c, w)
    requires IsPick(data, pa, c, lo, hi, r1)
    requires IsFirstMax(data, pa, c, lo, hi, r2)
    ensures r1 == r2
  {
    assert lo <= r1 < hi;
  }

  /** Iteration `i` of the corrected loop scans the interior bucket
      [Bound(i), Bound(i + 1)), which for i == 0 starts at index 1. */
  ghost predicate FixedBucketPick(data: seq<Point>, t: int, i: nat, anchor: nat, pick: nat)
    requires 3 <= t < |data|
  {
    if i < t - 2 && anchor < |data| then
      var n := |data|;
      BucketRanges(i, n, t);
      BoundStep(i, n, t);
      BoundMonotone(0, i, n, t);
      IsFirstMax(data, data[anchor], Reference(data, t, i), Bound(i, n, t), Bound(i + 1, n, t), pick)
    else
      false
  }

  /** The first |picks| iterations of the corrected loop chose `picks`. */
  ghost predicate ValidFixedPicks(data: seq<Point>, t: int, picks: seq<nat>)
    requires 3 <= t < |data|
    decreases |picks|
  {
    if |picks| == 0 then true
    else
      var m := |picks| - 1;
      && ValidFixedPicks(data, t, picks[..m])
      && FixedBucketPick(data, t, m, Anchor(picks, m), picks[m])
  }

  /** Every corrected pick lies in its own bucket. */
  lemma FixedPickInBucket(data: seq<Point>, t: int, picks: seq<nat>, i: nat)
    requires 3 <= t < |data|
    requires ValidFixedPicks(data, t, picks)
    requires i < |picks|
    ensures i < t - 2
    ensures Bound(i, |data|, t) <= picks[i] < Bound(i + 1, |data|, t)
  {
    FixedPickAt(data, t, picks, i);
  }

  /** Iteration `i` of a valid corrected selection picked `picks[i]`
      against the anchor left by iteration i - 1. */
  lemma {:induction false} FixedPickAt(data: seq<Point>, t: int, picks: seq<nat>, i: nat)
    requires 3 <= t < |data|
    requires ValidFixedPicks(data, t, picks)
    requires i < |picks|
    ensures FixedBucketPick(data, t, i, Anchor(picks, i), picks[i])
    decreases |picks|
  {
    var m := |picks| - 1;
    if i < m {
      var init := picks[..m];
      FixedPickAt(data, t, init, i);
      assert init[i] == picks[i];
      assert Anchor(init, i) == Anchor(picks, i);
    }
  }

  /** The corrected picks strictly increase and stay strictly between the
      first and the last index, so the whole output is in input order with
      no point repeated. */
  lemma FixedPicksIncrease(data: seq<Point>, t: int, picks: seq<nat>)
    requires 3 <= t < |data|
    requires ValidFixedPicks(data, t, picks)
    ensures forall i :: 0 <= i < |picks| ==> 0 < picks[i] < |data| - 1
    ensures forall i, j :: 0 <= i < j < |picks| ==> picks[i] < picks[j]
  {
    var n := |data|;
    forall i | 0 <= i < |picks|
      ensures 0 < picks[i] < n - 1
    {
      FixedPickInBucket(data, t, picks, i);
      BoundEnds(n, t);
      BoundMonotone(0, i, n, t);
      BoundMonotone(i + 1, t - 2, n, t);
    }
    forall i, j | 0 <= i < j < |picks|
      ensures picks[i] < picks[j]
    {
      FixedPickInBucket(data, t, picks, i);
      FixedPickInBucket(data, t, picks, j);
      BoundMonotone(i + 1, j, n, t);
    }
  }

  lemma FixedPicksExtend(data: seq<Point>, t: int, picks: seq<nat>, p: nat)
    requires 3 <= t < |data|
    requires ValidFixedPicks(data, t, picks)
    requires FixedBucketPick(data, t, |picks|, Anchor(picks, |picks|), p)
    ensures ValidFixedPicks(data, t, picks + [p])
  {
    var picks' := picks + [p];
    assert picks'[..|picks|] == picks;
    assert Anchor(picks', |picks|) == Anchor(picks, |picks|);
  }

  /** One iteration of the corrected loop. */
  method FixedBucketStep(data: seq<Point>, t: int, i: nat, a: nat) returns (nextA: nat)
    requires 3 <= t < |data| && i < t - 2 && a < |data|
    ensures nextA < |data|
    ensures FixedBucketPick(data, t, i, a, nextA)
  {
    var n := |data|;
    BucketRanges(i, n, t);
    BoundStep(i, n, t);
    BoundMonotone(0, i, n, t);
    var bucketStart := Bound(i, n, t);
    var bucketCenter := Bound(i + 1, n, t);
    var avgRangeEnd := Bound(i + 2, n, t);
    if avgRangeEnd >= n {
      avgRangeEnd := n;
    }
    assert avgRangeEnd == Min(Bound(i + 2, n, t), n);
    var avg := AverageOf(data, bucketCenter, avgRangeEnd);
    nextA := SelectInBucketFixed(data, data[a], avg, bucketStart, bucketCenter);
  }

  /** The corrected bucket loop, for 3 <= t < n: iteration i scans
      [Bound(i), Bound(i + 1)) against the previous pick. */
  method FixedBucketLoop(data: seq<Point>, t: int) returns (interior: seq<Point>, ghost picks: seq<nat>)
    requires 3 <= t < |data|
    ensures |interior| == t - 2
    ensures forall j :: 0 <= j < |interior| ==> interior[j] in data
    ensures |picks| == t - 2
    ensures forall j :: 0 <= j < |picks| ==> picks[j] < |data| && interior[j] == data[picks[j]]
    ensures ValidFixedPicks(data, t, picks)
  {
    var n := |data|;
    interior, picks := [], [];
    var a := 0;
    var i := 0;
    while i < t - 2
      invariant 0 <= i <= t - 2
      invariant |picks| == i && |interior| == i
      invariant forall j :: 0 <= j < i ==> picks[j] < n && interior[j] == data[picks[j]]
      invariant a == Anchor(picks, i) && a < n
      invariant ValidFixedPicks(data, t, picks)
    {
      var nextA := FixedBucketStep(data, t, i, a);
      FixedPicksExtend(data, t, picks, nextA);
      interior := interior + [data[nextA]];
      picks := picks + [nextA];
      a := nextA;
      i := i + 1;
    }
  }

  /** LTTB with the corrected scan: same no-op path, length and endpoints
      as the code, and the output's input indices strictly increase. */
  method DownsampleFixed(data: seq<Point>, threshold: int) returns (sampled: seq<Point>, ghost picks: seq<nat>)
    requires 0 <= threshold
    ensures threshold == 0 || threshold >= |data| ==> sampled == data
    ensures 0 < threshold < |data| ==>
      && |sampled| == (if threshold == 1 then 2 else threshold)
      && sampled[0] == data[0]
      && sampled[|sampled| - 1] == data[|data| - 1]
      && |picks| == |sampled| - 2
      && (forall j :: 0 <= j < |picks| ==> 0 < picks[j] < |data| - 1 && sampled[j + 1] == data[picks[j]])
      && (forall i, j :: 0 <= i < j < |picks| ==> picks[i] < picks[j])
    ensures 3 <= threshold < |data| ==> ValidFixedPicks(data, threshold, picks)
  {
    var n := |data|;
    picks := [];
    if threshold >= n || threshold == 0 {
      sampled := data;
      return;
    }
    var interior := [];
    if threshold > 2 {
      interior, picks := FixedBucketLoop(data, threshold);
      FixedPicksIncrease(data, threshold, picks);
    }
    sampled := [data[0]] + interior + [data[n - 1]];
  }

  /** Four points on the line y = x: (0, 0), (1, 1), (2, 2), (3, 3). */
  ghost predicate OnDiagonal4(data: seq<Point>)
  {
    |data| == 4 && forall k :: 0 <= k < 4 ==> data[k] == Point(k as real, k as real)
  }

  /** With four points and threshold 3 there is one interior bucket,
      [Bound(0), Bound(1)) == [1, 3), and the next bucket [Bound(1),
      Bound(2)) is clamped to [3, 4). */
  lemma DiagonalBounds(n: nat, t: int)
    requires n == 4 && t == 3
    ensures Bound(0, n, t) == 1 && Bound(1, n, t) == 3
    ensures Min(Bound(2, n, t), n) == n
  {
    BoundEnds(n, t);
    LastAveragingRange(n, t);
  }

  /** The reference point of that bucket is the last point, (3, 3), and
      every point lies on the line through the anchor (0, 0) and (3, 3),
      so no candidate has positive area. */
  lemma DiagonalAreas(data: seq<Point>)
    requires OnDiagonal4(data)
    ensures Centroid(data, 3, 4) == Point(3.0, 3.0)
    ensures forall k :: 0 <= k < 4 ==> AreaAt(data, data[0], Centroid(data, 3, 4), k) == 0.0
  {
    assert data[3] == Point(3.0, 3.0);
    assert SumX(data, 3, 4) == 3.0 && SumY(data, 3, 4) == 3.0;
    assert (4 - 3) as real == 1.0;
    assert data[0] == Point(0.0, 0.0);
    forall k | 0 <= k < 4
      ensures AreaAt(data, Point(0.0, 0.0), Point(3.0, 3.0), k) == 0.0
    {
      var p := data[k];
      assert p.x == p.y;
      assert (0.0 - 3.0) * (p.y - 0.0) - (0.0 - p.x) * (3.0 - 0.0) == 0.0;
    }
  }

  /** The code as written scans [0, 3) on four diagonal points with
      threshold 3, finds no positive area and so picks index 0. */
  lemma DiagonalPickIsFirstIndex(data: seq<Point>, t: int, p: nat)
    requires OnDiagonal4(data) && t == 3
    requires BucketPick(data, t, 0, 0, p)
    ensures p == 0
  {
    DiagonalScan(data, t, p);
    DiagonalAreas(data);
    PickZeroIffFlat(data, data[0], Centroid(data, 3, 4), 0, 3, p);
  }

  /** The one iteration of the code as written on four points with
      threshold 3 scans [0, 3) against the anchor (0, 0) and the
      reference point Centroid(data, 3, 4). */
  lemma DiagonalScan(data: seq<Point>, t: int, p: nat)
    requires |data| == 4 && t == 3
    requires BucketPick(data, t, 0, 0, p)
    ensures IsPick(data, data[0], Centroid(data, 3, 4), 0, 3, p)
  {
    DiagonalBounds(|data|, t);
  }

  /** The corrected scan on the same input scans [1, 3), finds no area
      above zero and keeps the bucket's first point. */
  lemma DiagonalFixedPickIsBucketStart(data: seq<Point>, t: int, p: nat)
    requires OnDiagonal4(data) && t == 3
    requires FixedBucketPick(data, t, 0, 0, p)
    ensures p == 1
  {
    DiagonalBounds(|data|, t);
    DiagonalAreas(data);
    var c := Centroid(data, 3, 4);
    assert IsFirstMax(data, data[0], c, 1, 3, p);
    FlatBucketKeepsStart(data, data[0], c, 1, 3, p);
  }

  /** A corrected scan over a bucket whose candidates all tie keeps the
      bucket's first point. */
  lemma FlatBucketKeepsStart(data: seq<Point>, pa: Point, c: Point, lo: nat, hi: nat, r: nat)
    requires lo < hi <= |data|
    requires IsFirstMax(data, pa, c, lo, hi, r)
    requires forall k :: lo <= k < hi ==> AreaAt(data, pa, c, k) == 0.0
    ensures r == lo
  {
    assert AreaAt(data, pa, c, lo) == AreaAt(data, pa, c, r);
  }

  /** The code as written, on (0, 0), (1, 1), (2, 2), (3, 3) with
      threshold 3: the first point comes out twice and points 1 and 2 are
      both skipped. */
  method DiagonalRepeatsFirstPoint(data: seq<Point>) returns (sampled: seq<Point>)
    requires OnDiagonal4(data)
    ensures sampled == [Point(0.0, 0.0), Point(0.0, 0.0), Point(3.0, 3.0)]
  {
    var t := 3;
    ghost var picks;
    sampled, picks := Downsample(data, t);
    ValidPicksAt(data, t, picks, 0);
    DiagonalPickIsFirstIndex(data, t, picks[0]);
    assert data[0] == Point(0.0, 0.0) && data[3] == Point(3.0, 3.0);
  }

  /** The corrected definition on the same input keeps (1, 1), the first
      point of the only bucket. */
  method DiagonalFixed(data: seq<Point>) returns (sampled: seq<Point>)
    requires OnDiagonal4(data)
    ensures sampled == [Point(0.0, 0.0), Point(1.0, 1.0), Point(3.0, 3.0)]
  {
    var t := 3;
    ghost var picks;
    sampled, picks := DownsampleFixed(data, t);
    FixedPickAt(data, t, picks, 0);
    DiagonalFixedPickIsBucketStart(data, t, picks[0]);
    assert data[0] == Point(0.0, 0.0) && data[1] == Point(1.0, 1.0) && data[3] == Point(3.0, 3.0);
  }
}
