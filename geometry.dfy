/** Axis-aligned boxes in corner form and their intersection-over-union.
    Coordinates are unbounded integers (the caller's unsigned 16-bit
    wrap-around is not modelled); the ratio is computed exactly as a real. */
module Geometry {

  /** A box [x1, y1, x2, y2]: (x1, y1) is the top-left corner, (x2, y2) the
      bottom-right one. */
  datatype Box = Box(x1: int, y1: int, x2: int, y2: int)

  /** A displacement or an image point. */
  datatype Point = Point(x: int, y: int)

  function Width(b: Box): int { b.x2 - b.x1 }

  function Height(b: Box): int { b.y2 - b.y1 }

  predicate PositiveArea(b: Box) { b.x1 < b.x2 && b.y1 < b.y2 }

  function Area(b: Box): int { Width(b) * Height(b) }

  function Max(a: int, b: int): int { if a < b then b else a }

  function Min(a: int, b: int): int { if a < b then a else b }

  /** Width and height of the overlap, clamped at zero like
      `np.maximum(0., xx2 - xx1)`. */
  function OverlapWidth(a: Box, b: Box): int { Max(0, Min(a.x2, b.x2) - Max(a.x1, b.x1)) }

  function OverlapHeight(a: Box, b: Box): int { Max(0, Min(a.y2, b.y2) - Max(a.y1, b.y1)) }

  /** The boxes share interior points. */
  predicate Overlap(a: Box, b: Box)
  {
    Max(a.x1, b.x1) < Min(a.x2, b.x2) && Max(a.y1, b.y1) < Min(a.y2, b.y2)
  }

  /** Area of the intersection, `wh` in the source. */
  function Intersection(a: Box, b: Box): int
  {
    OverlapWidth(a, b) * OverlapHeight(a, b)
  }

  lemma MulLe(w: int, h: int, bw: int, bh: int)
    requires 0 <= w <= bw && 0 <= h <= bh
    ensures w * h <= bw * bh
  {
    assert w * h <= bw * h;
    assert bw * h <= bw * bh;
  }

  /** Equality of the product forces equality of the factors. */
  lemma MulEqFactors(w: int, h: int, bw: int, bh: int)
    requires 0 <= w <= bw && 0 <= h <= bh && 0 < bw && 0 < bh
    requires w * h == bw * bh
    ensures w == bw && h == bh
  {
    MulLe(w, h, w, bh);
    assert w < bw ==> w * bh < bw * bh;
    assert h < bh ==> bw * h < bw * bh;
    assert w * h <= bw * h;
  }

  /** The intersection is never larger than either box. */
  lemma IntersectionBounded(a: Box, b: Box)
    requires PositiveArea(a) && PositiveArea(b)
    ensures 0 <= Intersection(a, b) <= Area(a)
    ensures Intersection(a, b) <= Area(b)
  {
    MulLe(OverlapWidth(a, b), OverlapHeight(a, b), Width(a), Height(a));
    MulLe(OverlapWidth(a, b), OverlapHeight(a, b), Width(b), Height(b));
  }

  /** A box has positive area, and the union of two such boxes exceeds
      neither their intersection nor zero. */
  lemma UnionPositive(a: Box, b: Box)
    requires PositiveArea(a) && PositiveArea(b)
    ensures 0 <= Intersection(a, b) <= Area(a) + Area(b) - Intersection(a, b)
    ensures 0 < Area(a) + Area(b) - Intersection(a, b)
  {
    IntersectionBounded(a, b);
    MulLe(1, 1, Width(a), Height(a));
  }

  /** The intersection is non-empty exactly when the boxes overlap. */
  lemma IntersectionPositiveIffOverlap(a: Box, b: Box)
    ensures Intersection(a, b) > 0 <==> Overlap(a, b)
  {
    if Overlap(a, b) {
      MulLe(1, 1, OverlapWidth(a, b), OverlapHeight(a, b));
    } else {
      assert OverlapWidth(a, b) == 0 || OverlapHeight(a, b) == 0;
    }
  }

  /** A ratio n / d with 0 <= n <= d and 0 < d lies in [0, 1]; it is 0
      exactly when n is, and 1 exactly when n == d. */
  lemma RatioInUnit(n: int, d: int)
    requires 0 <= n <= d && 0 < d
    ensures 0.0 <= (n as real) / (d as real) <= 1.0
    ensures (n as real) / (d as real) == 0.0 <==> n == 0
    ensures (n as real) / (d as real) == 1.0 <==> n == d
  {
    var q := (n as real) / (d as real);
    assert q * (d as real) == n as real;
  }

  /** `iou(bb_test, bb_gt)`: intersection area over union area. The source
      does not guard the denominator; it is positive for positive-area boxes. */
  function Iou(a: Box, b: Box): (r: real)
    requires PositiveArea(a) && PositiveArea(b)
    ensures 0.0 <= r <= 1.0
    ensures r == 0.0 <==> !Overlap(a, b)
  {
    UnionPositive(a, b);
    IntersectionPositiveIffOverlap(a, b);
    var wh := Intersection(a, b);
    RatioInUnit(wh, Area(a) + Area(b) - wh);
    (wh as real) / ((Area(a) + Area(b) - wh) as real)
  }

  /** The ratio does not depend on the order of its arguments. */
  lemma IouSymmetric(a: Box, b: Box)
    requires PositiveArea(a) && PositiveArea(b)
    ensures Iou(a, b) == Iou(b, a)
  {
    assert Intersection(a, b) == Intersection(b, a);
  }

  /** A positive-area box has IOU 1 with itself, and with no other box. */
  lemma IouOneIffSame(a: Box, b: Box)
    requires PositiveArea(a) && PositiveArea(b)
    ensures Iou(a, b) == 1.0 <==> a == b
  {
    IntersectionBounded(a, b);
    UnionPositive(a, b);
    var wh := Intersection(a, b);
    RatioInUnit(wh, Area(a) + Area(b) - wh);
    if a == b {
      assert OverlapWidth(a, b) == Width(a) && OverlapHeight(a, b) == Height(a);
    }
    if Iou(a, b) == 1.0 {
      assert wh == Area(a) && wh == Area(b);
      MulEqFactors(OverlapWidth(a, b), OverlapHeight(a, b), Width(a), Height(a));
      MulEqFactors(OverlapWidth(a, b), OverlapHeight(a, b), Width(b), Height(b));
    }
  }

  /** `bbox[i] += vector[i % 2]` for i in 0..4: both corners move by v. */
  function Translate(b: Box, v: Point): (r: Box)
    ensures Width(r) == Width(b) && Height(r) == Height(b)
    ensures forall i :: 0 <= i < 4 ==> Coord(r, i) == Coord(b, i) + Component(v, i)
    ensures PositiveArea(r) <==> PositiveArea(b)
  {
    Box(b.x1 + v.x, b.y1 + v.y, b.x2 + v.x, b.y2 + v.y)
  }

  /** Coordinate i of a box, in the order [x1, y1, x2, y2]. */
  function Coord(b: Box, i: nat): int
    requires i < 4
  {
    if i == 0 then b.x1 else if i == 1 then b.y1 else if i == 2 then b.x2 else b.y2
  }

  /** The box with coordinate i replaced by v. */
  function WithCoord(b: Box, i: nat, v: int): (r: Box)
    requires i < 4
    ensures Coord(r, i) == v
    ensures forall j :: 0 <= j < 4 && j != i ==> Coord(r, j) == Coord(b, j)
  {
    if i == 0 then b.(x1 := v) else if i == 1 then b.(y1 := v) else if i == 2 then b.(x2 := v) else b.(y2 := v)
  }

  /** Component i % 2 of a vector: x for even i, y for odd i. */
  function Component(v: Point, i: nat): int
  {
    if i % 2 == 0 then v.x else v.y
  }
}
