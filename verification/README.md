# LTTB downsampling, modelled in Dafny

go-lttb is a single Go function, `LTTB(data, threshold)`. It implements the
Largest-Triangle-Three-Buckets downsampler: it reduces a line of points to
`threshold` points that keep the line's visual shape.

- The first and last points are always kept.
- The interior is cut into `threshold - 2` contiguous buckets of width
  `every = (len(data) - 2) / (threshold - 2)`.
- Each bucket contributes the point that spans the largest triangle with
  two other points: the point kept before it (the anchor) and the centroid
  of the next bucket.

The model has four modules:

- `Geometry`: the `Point` record, with coordinates as reals. Also the
  cross-product area measure and the centroid of a run of points.
- `Buckets`: the bucket boundaries. `floor(k * every) + 1` is written
  exactly as the integer quotient `k * (n - 2) / (threshold - 2) + 1`.
  This module proves the boundaries' floor property, their order and
  their end points. It also proves that the scan ranges tile every index
  but the last, which is never scanned. These facts hold in exact
  arithmetic. Float64 can place a boundary one index lower (see Left out).
- `Lttb`: the function as written.
  - `SelectInBucket` is the candidate scan.
  - `AverageOf` is the averaging loop.
  - `BucketStep` is one loop iteration.
  - `BucketLoop` is the loop, using explicit `bucketStart`, `bucketCenter`
    and `bucketEnd` variables and the anchor `a`.
  - `Downsample` is the whole function.
  - `ValidPicks` is an independent, iteration-by-iteration definition of
    what the loop selects. The loop is proved to meet it, and `PicksUnique`
    proves that it determines the selection.
- `LttbFixed`: a corrected variant and a concrete input that separates it
  from the code (see Findings).

Two consequences of the code as written are worth stating, because they
depart from what a reader of the algorithm might expect.

- **All-zero bucket.** `nextA` is declared afresh at lttb.go:89, so it
  starts at 0 in every iteration and changes only on a strictly positive
  area (lttb.go:93). A bucket in which no candidate has positive area
  therefore emits `data[0]`. When the anchor is index 0, that point is
  the anchor. This always happens in the first iteration (lttb.go:55),
  whose scan range also holds index 0 (lttb.go:52), and after an
  earlier fallback has set `a` to 0 (lttb.go:100). Otherwise the
  emitted point is neither the anchor nor a point of the bucket.
- **Ordering of output indices.** Every pick that is not index 0 lies
  in its own scan range, and those ranges advance (lttb.go:102-103). So
  the picks other than index 0 strictly increase, but a zero-area
  fallback to index 0 can break the order and repeat the first point. The first scan starts at
  index 0 (lttb.go:52), but that alone never picks index 0: there the
  candidate `data[0]` is also the anchor `data[a]`, so its area at
  lttb.go:92 is 0 and it loses to any positive area.
  `Lttb.PickFromOwnRange` and `Lttb.NonzeroPicksIncrease` state this.
  The corrected variant scans each bucket from its own start and proves
  that all picks strictly increase.

## Model

| member | source | states |
|---|---|---|
| `Geometry.TriangleArea` | lttb.go:92 | The ranking measure, the cross-product magnitude of lttb.go:92 with a = anchor, b = candidate and c = next bucket's average, is never negative. It is zero when two corners coincide, so the anchor as a candidate scores 0. |
| `Geometry.AreaIsShoelace` | lttb.go:92 | The code's ranking measure equals the textbook shoelace formula for twice the area of the triangle formed by the anchor, the candidate and the next bucket's average. |
| `Geometry.CentroidInBox` | lttb.go:69-77 | The averaged reference point lies inside any box that holds every point of the averaged range. |
| `Geometry.CentroidOfConstantRun` | lttb.go:69-77 | Averaging a run of identical points gives that point. |
| `Buckets.QuotientIsFloor` | lttb.go:53 | `Buckets.Bound(k, n, t)`, defined as `k * (n - 2) / (t - 2) + 1`, stands for `int(math.Floor(k * every)) + 1` at lttb.go:53 and lttb.go:59. This lemma shows that integer division by a positive divisor is the floor of the real quotient, as `int(math.Floor(...))` computes. |
| `Buckets.BoundIsFloor` | lttb.go:59 | `Bound(k) - 1` is the floor of `k * every`, with `every = (n - 2) / (threshold - 2)` over the reals. |
| `Buckets.BoundMonotone` | lttb.go:59 | `bucketEnd = floor((i + 2) * every) + 1` never decreases as `i` grows. |
| `Buckets.BoundStep` | lttb.go:48-59 | With more points than the threshold, `every` exceeds one, so consecutive boundaries strictly increase and no bucket is empty. |
| `Buckets.BoundEnds` | lttb.go:59 | `Bound(t - 2) == n - 1`: the last iteration's `bucketCenter`, set by lttb.go:53 or lttb.go:59 and lttb.go:103, stops the last scan just before the last point. This holds in exact arithmetic; float64 can end the last scan one index earlier (see Left out). `Bound(0) == 1` is where the corrected variant's first bucket starts. The code as written never computes `Bound(0)`, because its first scan starts at 0 (lttb.go:52). |
| `Buckets.BucketRanges` | lttb.go:62-81 | `Buckets.ScanStart(i)` is the iteration's `bucketStart`: 0 for the first iteration (lttb.go:52), then the previous `bucketCenter`, `Bound(i)` (lttb.go:102). In every iteration, the scan range `[bucketStart, bucketCenter)` and the averaging range `[bucketCenter, min(bucketEnd, n))` are non-empty and lie inside the input. The scan range ends before the last point. |
| `Buckets.LastAveragingRange` | lttb.go:65-67 | In exact arithmetic, the last iteration's `bucketEnd` reaches or passes `n`, and the clamp cuts the averaging range down to the last point alone. Float64 can leave that range one point longer (see Left out). |
| `Buckets.BucketOf` | lttb.go:102-103 | Each scan starts where the previous one ended, so every index from 0 up to `n - 2` lies in the scan range of some iteration. |
| `Buckets.ScanRangesDisjoint` | lttb.go:80-81 | No index lies in the scan ranges of two different iterations. |
| `Buckets.ScanRangesTile` | lttb.go:102-103 | In exact arithmetic, each index of `[0, n - 1)` is scanned by exactly one iteration, and the last point is never scanned. Float64 can leave index `n - 2` unscanned (see Left out). |
| `Lttb.SelectInBucket` | lttb.go:87-97 | The scan meets `Lttb.IsPick`, the declarative statement of lttb.go:87-97: it returns the first index in the range whose area is strictly positive and maximal. If no area is positive, it returns 0. |
| `Lttb.PickUnique` | lttb.go:93-96 | The strict comparison settles ties: at most one index meets the scan's specification, so equal areas always resolve to the earliest index. |
| `Lttb.BucketPickUnique` | lttb.go:80-97 | Given the anchor, one iteration's pick is determined. |
| `Lttb.AverageOf` | lttb.go:69-77 | The averaging loop's front-to-back sums, divided by the range length, give the centroid of `[avgRangeStart, avgRangeEnd)`. |
| `Lttb.BucketStep` | lttb.go:59-97 | One iteration averages the clamped next bucket and scans the current one against `data[a]`. Its pick is an input index that meets the iteration's specification. |
| `Lttb.ValidPicksExtend` | lttb.go:99-100 | Appending an iteration's pick, which then becomes the next anchor, extends a valid selection. |
| `Lttb.ValidPicksAt` | lttb.go:57-104 | In a valid selection, iteration `i` exists only for `i < threshold - 2`. Its pick is an input index chosen against the previous iteration's pick as anchor, or against index 0 in the first iteration. |
| `Lttb.PicksUnique` | lttb.go:57-104 | The loop is deterministic: two selections that both follow it for the same number of iterations are equal. |
| `Lttb.PickZeroIffFlat` | lttb.go:87-97 | If the scan range excludes index 0, or gives it zero area, the scan returns 0 exactly when every candidate has zero area. Otherwise it returns an index of the range. |
| `Lttb.PickFromOwnRange` | lttb.go:80-97 | An iteration's pick is 0 or an index of its own scan range, and it is 0 exactly when every candidate of the range has zero area. This holds in the first iteration too, where candidate 0 is the anchor. |
| `Lttb.NonzeroPicksIncrease` | lttb.go:57-104 | The picks other than index 0 lie before the last point and strictly increase. |
| `Lttb.AssembledFromInput` | lttb.go:50-106 | An output made of the first point, points at picked indices and the last point contains only input points; nothing is interpolated. |
| `Lttb.BucketLoop` | lttb.go:52-104 | Its invariants keep `bucketStart == ScanStart(i)`, `bucketCenter == Bound(i + 1)` and `a` equal to the previous pick. The loop runs `threshold - 2` times and appends one input point, `data[nextA]`, per iteration. The picked indices are exactly the selection `ValidPicks` defines. |
| `Lttb.Downsample` | lttb.go:39-109 | A threshold of 0, or one at least `len(data)`, returns the input unchanged. Otherwise the output has `threshold` points (2 when `threshold` is 1), starts with `data[0]`, ends with `data[len(data) - 1]`, and its interior points are `data` at the indices the loop picks. Picks other than zero-area fallbacks to index 0 strictly increase. Every output point is an input point. |
| `LttbFixed.DiagonalPickIsFirstIndex` | lttb.go:87-97 | On (0,0), (1,1), (2,2), (3,3) with threshold 3, the only iteration as written picks index 0. |
| `LttbFixed.DiagonalRepeatsFirstPoint` | lttb.go:39-109 | On that input the code as written returns (0,0), (0,0), (3,3): the first point twice. |
| `LttbFixed.SelectInBucketFixed` | lttb.go:87-97 | The corrected scan starts its running maximum below every area. It returns the first index of maximal area, always inside the bucket. |
| `LttbFixed.FlatBucketKeepsStart` | lttb.go:87-97 | The corrected scan keeps the bucket's first point when all areas tie. |
| `LttbFixed.ScansAgreeOnPositiveArea` | lttb.go:87-97 | When some candidate has positive area, the code as written and the corrected scan pick the same index. |
| `LttbFixed.FixedPickInBucket` | lttb.go:80-81 | Iteration `i` of the corrected loop picks from its own interior bucket, `[Bound(i), Bound(i + 1))`. |
| `LttbFixed.FixedBucketStep` | lttb.go:59-97 | One corrected iteration averages the same clamped next bucket and scans its own bucket `[Bound(i), Bound(i + 1))` with the corrected scan. Its pick meets `FixedBucketPick`. |
| `LttbFixed.FixedBucketLoop` | lttb.go:57-104 | The corrected loop runs `threshold - 2` times and appends one input point per iteration. Its picks are the selection `ValidFixedPicks` defines. |
| `LttbFixed.FixedPicksIncrease` | lttb.go:57-104 | The corrected picks lie strictly between the first and the last index and strictly increase. |
| `LttbFixed.DownsampleFixed` | lttb.go:39-109 | The corrected function has the same no-op path, length and endpoints. Its output's input indices strictly increase, so no point repeats and input order is kept. |
| `LttbFixed.DiagonalFixed` | lttb.go:39-109 | On the diagonal input, the corrected function returns (0,0), (1,1), (3,3). |

## Left out

- Float64 arithmetic. Coordinates, areas and averages are real numbers.
  The bucket width `every` (lttb.go:48) and `math.Floor(float64(i+2)*every)`
  (lttb.go:59) are computed exactly, as integer quotients. Float rounding
  already changes a boundary on small inputs. With 17 points and threshold
  13, `every` rounds to 1.3636363636363635 and `11 * every` to
  14.999999999999998. So the last `bucketCenter` is 15, not the exact 16.
  The Go code's last scan is then [14, 15) and its last average covers
  [15, 17), and index 15 is never scanned. `Buckets.BoundEnds`,
  `Buckets.LastAveragingRange` and `Buckets.ScanRangesTile` hold for the
  exact model only. NaN and infinity are not modelled.
- The `XYPoint` interface and the `GetX`/`GetY` accessors (lttb.go:20-35).
  A concrete `Point` record stands in for them.
- Go slice aliasing. The no-op path returns the caller's own slice, and
  `make` reserves capacity (lttb.go:45). With value sequences, neither
  matters.
- Lttb.Downsample: requires `threshold >= 0`. For any negative threshold
  the Go code panics in `make` at lttb.go:45, because capacity would be
  below length. The panic is not modelled as an outcome.
- Threshold 2 computes `every` as a division by zero, and threshold 1 makes
  `every` negative (lttb.go:48, 53). The loop does not run in either case,
  so these values are never used. The model does not compute them and
  returns the two endpoints.

## Findings

| source | as written | input that shows it | evidently intended | confidence | as-written member | corrected member |
|---|---|---|---|---|---|---|
| lttb.go:52, lttb.go:87-89 | `maxArea` and `nextA` start at 0 in every iteration. A bucket with no strictly positive area therefore emits `data[0]`. The first scan also starts at index 0, the first point, instead of 1, although there index 0 has zero area as the anchor. | `data` = (0,0), (1,1), (2,2), (3,3), `threshold` = 3. The output is (0,0), (0,0), (3,3). | Each interior pick comes from its own bucket, so output indices strictly increase. The intended output is (0,0), (1,1), (3,3). | not executed | `LttbFixed.DiagonalRepeatsFirstPoint` | `LttbFixed.DownsampleFixed` |
