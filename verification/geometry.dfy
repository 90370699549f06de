/** Points of the sampled line, the triangle-area measure that ranks candidate
    points, and the centroid of a run of points that stands in for the next
    bucket. Coordinates are the float64 fields of the Point record, idealised
    as real numbers. */
module Geometry {

  /** A point of the line: an X and a Y coordinate, nothing else. */
  datatype Point = Point(x: real, y: real)

  /** Absolute value of a real, the math.Abs of the area formula. */
  function Abs(v: real): (r: real)
    ensures 0.0 <= r
    ensures r == v || r == -v
  {
    if v < 0.0 then -v else v
  }

  /** The ranking measure for candidate `b`, given the anchor `a` (the
      previous pick) and the reference point `c` (the next bucket's
      centroid): the magnitude of the cross product of a->c and a->b, which
      is twice the area of the triangle (a, b, c). The factor two is
      irrelevant to the ranking and the code leaves it out. A triangle
      with two equal corners has no area; in particular the anchor itself,
      as a candidate, always scores zero. */
  function TriangleArea(a: Point, b: Point, c: Point): (r: real)
    ensures 0.0 <= r
    ensures b == a || c == a || b == c ==> r == 0.0
  {
    Abs((a.x - c.x) * (b.y - a.y) - (a.x - b.x) * (c.y - a.y))
  }

  /** The textbook shoelace formula for twice the area of a triangle,
      an independent reference for TriangleArea. */
  function Shoelace(a: Point, b: Point, c: Point): real
  {
    Abs(a.x * (b.y - c.y) + b.x * (c.y - a.y) + c.x * (a.y - b.y))
  }

  /** The cross-product form of the code ranks candidates by the area of
      the triangle they span with the anchor and the reference point. */
  lemma AreaIsShoelace(a: Point, b: Point, c: Point)
    ensures TriangleArea(a, b, c) == Shoelace(a, b, c)
  {
    var cross := (a.x - c.x) * (b.y - a.y) - (a.x - b.x) * (c.y - a.y);
    var shoe := a.x * (b.y - c.y) + b.x * (c.y - a.y) + c.x * (a.y - b.y);
    assert cross == shoe;
  }

  /** Sum of the X coordinates of s[lo..hi], accumulated front to back as
      the averaging loop does. */
  function SumX(s: seq<Point>, lo: nat, hi: nat): real
    requires lo <= hi <= |s|
    decreases hi - lo
  {
    if lo == hi then 0.0 else SumX(s, lo, hi - 1) + s[hi - 1].x
  }

  /** Sum of the Y coordinates of s[lo..hi], accumulated front to back. */
  function SumY(s: seq<Point>, lo: nat, hi: nat): real
    requires lo <= hi <= |s|
    decreases hi - lo
  {
    if lo == hi then 0.0 else SumY(s, lo, hi - 1) + s[hi - 1].y
  }

  /** The arithmetic mean of the non-empty run s[lo..hi]: a synthetic point
      that is used as a triangle vertex and never emitted. */
  function Centroid(s: seq<Point>, lo: nat, hi: nat): Point
    requires lo < hi <= |s|
  {
    Point(SumX(s, lo, hi) / (hi - lo) as real, SumY(s, lo, hi) / (hi - lo) as real)
  }

  /** Every point of s[lo..hi] lies in the box spanned by `bl` (bottom
      left) and `tr` (top right). */
  ghost predicate InBox(s: seq<Point>, lo: nat, hi: nat, bl: Point, tr: Point)
    requires lo <= hi <= |s|
  {
    forall k :: lo <= k < hi ==>
      bl.x <= s[k].x <= tr.x && bl.y <= s[k].y <= tr.y
  }

  /** Scaling a lower and an upper bound by a positive count: the facts the
      box lemmas need, kept apart so the solver sees one product at a time. */
  lemma ScaleStep(m: real, lo: real, hi: real, sum: real, v: real)
    requires m * lo <= sum <= m * hi
    requires lo <= v <= hi
    ensures (m + 1.0) * lo <= sum + v <= (m + 1.0) * hi
  {
    assert (m + 1.0) * lo == m * lo + lo;
    assert (m + 1.0) * hi == m * hi + hi;
  }

  lemma DivideBounds(len: real, lo: real, hi: real, sum: real)
    requires 0.0 < len
    requires len * lo <= sum <= len * hi
    ensures lo <= sum / len <= hi
  {
    var q := sum / len;
    assert q * len == sum;
    assert (q - lo) * len == sum - len * lo;
    assert (hi - q) * len == len * hi - sum;
  }

  lemma {:induction false} SumsInBox(s: seq<Point>, lo: nat, hi: nat, bl: Point, tr: Point)
    requires lo <= hi <= |s|
    requires InBox(s, lo, hi, bl, tr)
    ensures (hi - lo) as real * bl.x <= SumX(s, lo, hi) <= (hi - lo) as real * tr.x
    ensures (hi - lo) as real * bl.y <= SumY(s, lo, hi) <= (hi - lo) as real * tr.y
    decreases hi - lo
  {
    if lo < hi {
      SumsInBox(s, lo, hi - 1, bl, tr);
      var last := s[hi - 1];
      assert (hi - lo) as real == (hi - 1 - lo) as real + 1.0;
      ScaleStep((hi - 1 - lo) as real, bl.x, tr.x, SumX(s, lo, hi - 1), last.x);
      ScaleStep((hi - 1 - lo) as real, bl.y, tr.y, SumY(s, lo, hi - 1), last.y);
    }
  }

  /** The centroid of a run stays inside any box that holds the whole run:
      averaging the next bucket never produces a reference point outside
      the range of the points it summarises. */
  lemma CentroidInBox(s: seq<Point>, lo: nat, hi: nat, bl: Point, tr: Point)
    requires lo < hi <= |s|
    requires InBox(s, lo, hi, bl, tr)
    ensures bl.x <= Centroid(s, lo, hi).x <= tr.x
    ensures bl.y <= Centroid(s, lo, hi).y <= tr.y
  {
    SumsInBox(s, lo, hi, bl, tr);
    DivideBounds((hi - lo) as real, bl.x, tr.x, SumX(s, lo, hi));
    DivideBounds((hi - lo) as real, bl.y, tr.y, SumY(s, lo, hi));
  }

  /** A run of identical points averages to that point. */
  lemma CentroidOfConstantRun(s: seq<Point>, lo: nat, hi: nat, p: Point)
    requires lo < hi <= |s|
    requires forall k :: lo <= k < hi ==> s[k] == p
    ensures Centroid(s, lo, hi) == p
  {
    assert InBox(s, lo, hi, p, p);
    CentroidInBox(s, lo, hi, p, p);
  }
}
