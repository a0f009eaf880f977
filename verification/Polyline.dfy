/**
 Distance from a point to a polyline: `_min_distance_to_path` of ros2/src/e2e_test_no_lidar.py and
 `xtrack` of docker/logs/mow_sessions/xtrack.py, over the reals and with squared distances.
 */
module Polyline {
  import opened Basics

  datatype Point = Point(x: real, y: real)

  const THRESHOLD := 0.000000000001

  function Square(r: real): real {
    r * r
  }

  function Dist2(p: Point, q: Point): real {
    Square(p.x - q.x) + Square(p.y - q.y)
  }

  function Dot(ux: real, uy: real, vx: real, vy: real): real {
    ux * vx + uy * vy
  }

  /** The point a fraction `t` of the way from `a` to `b`. */
  function Along(a: Point, b: Point, t: real): Point {
    Point(a.x + t * (b.x - a.x), a.y + t * (b.y - a.y))
  }

  function Clamp(t: real): real {
    if t < 0.0 then 0.0 else if t > 1.0 then 1.0 else t
  }

  predicate Degenerate(a: Point, b: Point) {
    Dist2(a, b) < THRESHOLD
  }

  /** The fraction at which the code evaluates the segment. */
  function Foot(p: Point, a: Point, b: Point): real {
    if Degenerate(a, b) then 0.0
    else Clamp(Dot(p.x - a.x, p.y - a.y, b.x - a.x, b.y - a.y) / Dist2(a, b))
  }

  function SegmentDist2(p: Point, a: Point, b: Point): real {
    Dist2(p, Along(a, b, Foot(p, a, b)))
  }

  /** The smaller of a running minimum and a new value; None is infinity. */
  function Less(best: Option<real>, d: real): Option<real> {
    if best.None? || d < best.value then Some(d) else best
  }

  /** The running minimum over the first `n` segments, from `start`. */
  function Nearest(p: Point, path: seq<Point>, n: nat, start: Option<real>): Option<real>
    requires n < |path| || n == 0
  {
    if n == 0 then start else Less(Nearest(p, path, n - 1, start), SegmentDist2(p, path[n - 1], path[n]))
  }

  method DistanceToSegment(p: Point, a: Point, b: Point) returns (d: real)
    ensures d == SegmentDist2(p, a, b)
    ensures Dist2(a, b) < 0.000000000001 ==> d == Dist2(p, a)
    ensures Dist2(a, b) >= 0.000000000001 ==>
              && (exists t :: 0.0 <= t <= 1.0 && d == Dist2(p, Along(a, b, t)))
              && forall t :: 0.0 <= t <= 1.0 ==> d <= Dist2(p, Along(a, b, t))
  {
    SegmentExactly(p, a, b);
    var dx, dy := b.x - a.x, b.y - a.y;
    var length2 := dx * dx + dy * dy;
    SameLength(a, b, length2);
    if length2 < THRESHOLD {
      PointCase(p, a, b);
      return Dist2(p, a);
    }
    d := DistanceToFoot(p, a, b, dx, dy, length2);
  }

  method DistanceToFoot(p: Point, a: Point, b: Point, dx: real, dy: real, length2: real) returns (d: real)
    requires length2 == Dist2(a, b) && !Degenerate(a, b) && dx == b.x - a.x && dy == b.y - a.y
    ensures d == SegmentDist2(p, a, b)
  {
    FootCase(p, a, b, dx, dy, length2);
    var t := Clamp(Dot(p.x - a.x, p.y - a.y, dx, dy) / length2);
    return Dist2(p, Point(a.x + t * dx, a.y + t * dy));
  }

  lemma PointCase(p: Point, a: Point, b: Point)
    requires Degenerate(a, b)
    ensures SegmentDist2(p, a, b) == Dist2(p, a)
  {
    AtStart(a, b);
  }

  lemma FootCase(p: Point, a: Point, b: Point, dx: real, dy: real, length2: real)
    requires length2 == Dist2(a, b) && !Degenerate(a, b) && dx == b.x - a.x && dy == b.y - a.y
    ensures var t := Clamp(Dot(p.x - a.x, p.y - a.y, dx, dy) / length2);
            SegmentDist2(p, a, b) == Dist2(p, Point(a.x + t * dx, a.y + t * dy))
  {
    FootIs(p, a, b, dx, dy, length2);
  }

  lemma FootIs(p: Point, a: Point, b: Point, dx: real, dy: real, length2: real)
    requires length2 == Dist2(a, b) && !Degenerate(a, b) && dx == b.x - a.x && dy == b.y - a.y
    ensures length2 > 0.0
    ensures var t := Clamp(Dot(p.x - a.x, p.y - a.y, dx, dy) / length2);
            Foot(p, a, b) == t && Along(a, b, Foot(p, a, b)) == Point(a.x + t * dx, a.y + t * dy)
  {
  }

  /**
   The loop of both scripts. `start` is infinity in one and the square of 1e9 in the other. A path of
   fewer than two points has no segment, so its answer is `start`.
   */
  /** A segment under the threshold counts as its start, any other as its nearest point. */
  lemma SegmentExactly(p: Point, a: Point, b: Point)
    ensures Dist2(a, b) < 0.000000000001 ==> SegmentDist2(p, a, b) == Dist2(p, a)
    ensures Dist2(a, b) >= 0.000000000001 ==>
              && (exists t :: 0.0 <= t <= 1.0 && SegmentDist2(p, a, b) == Dist2(p, Along(a, b, t)))
              && forall t :: 0.0 <= t <= 1.0 ==> SegmentDist2(p, a, b) <= Dist2(p, Along(a, b, t))
  {
    if Degenerate(a, b) {
      PointCase(p, a, b);
    } else {
      var s := Foot(p, a, b);
      assert 0.0 <= s <= 1.0 && SegmentDist2(p, a, b) == Dist2(p, Along(a, b, s));
      forall t | 0.0 <= t <= 1.0 ensures SegmentDist2(p, a, b) <= Dist2(p, Along(a, b, t)) {
        FootIsNearest(p, a, b, t);
      }
    }
  }

  method MinDist2(p: Point, path: seq<Point>, start: Option<real>) returns (best: Option<real>)
    ensures best == Nearest(p, path, if |path| == 0 then 0 else |path| - 1, start)
    ensures |path| < 2 ==> best == start
    ensures |path| >= 2 ==> IsDistance(p, path, start, best)
  {
    best := LeastSegment(p, path, start);
    if |path| >= 2 {
      NearestIsTheDistance(p, path, start);
    }
  }

  /** The loop itself: the running minimum over the segments. */
  method LeastSegment(p: Point, path: seq<Point>, start: Option<real>) returns (best: Option<real>)
    ensures best == Nearest(p, path, if |path| == 0 then 0 else |path| - 1, start)
  {
    best := start;
    var i := 0;
    while i + 1 < |path|
      invariant i == 0 || i < |path|
      invariant best == Nearest(p, path, i, start)
    {
      var d := DistanceToSegment(p, path[i], path[i + 1]);
      best := Less(best, d);
      i := i + 1;
    }
  }

  lemma SameLength(a: Point, b: Point, length2: real)
    requires length2 == (b.x - a.x) * (b.x - a.x) + (b.y - a.y) * (b.y - a.y)
    ensures length2 == Dist2(a, b)
  {
    NegateSquare(a.x - b.x);
    NegateSquare(a.y - b.y);
  }

  lemma NegateSquare(r: real)
    ensures Square(-r) == Square(r)
  {
  }

  lemma AtStart(a: Point, b: Point)
    ensures Along(a, b, 0.0) == a
  {
  }

  // ---------------------------------------------------------------- the foot is the nearest point

  /** The squared distance to the point at fraction `t`, as a polynomial in `t`. */
  function Parabola(ww: real, wd: real, dd: real, t: real): real {
    ww - 2.0 * (t * wd) + t * t * dd
  }

  lemma OneAxis(w: real, d: real, t: real)
    ensures Square(w - t * d) == w * w - 2.0 * (t * (w * d)) + t * t * (d * d)
  {
    var m := t * d;
    assert Square(w - m) == w * w - 2.0 * (w * m) + m * m;
    assert w * m == t * (w * d);
    assert m * m == t * t * (d * d) by { Reorder(t, d); }
  }

  lemma Reorder(t: real, d: real)
    ensures (t * d) * (t * d) == t * t * (d * d)
  {
    var m := t * d;
    assert m * (t * d) == (m * t) * d;
    assert m * t == (t * t) * d;
    assert ((t * t) * d) * d == (t * t) * (d * d);
  }

  /** `ww`, `wd` and `dd` are the products of the offset (wx, wy) from `a` and the direction (dx, dy). */
  predicate Products(wx: real, wy: real, dx: real, dy: real, ww: real, wd: real, dd: real) {
    ww == wx * wx + wy * wy && wd == Dot(wx, wy, dx, dy) && dd == dx * dx + dy * dy
  }

  predicate Offsets(p: Point, a: Point, b: Point, wx: real, wy: real, dx: real, dy: real) {
    wx == p.x - a.x && wy == p.y - a.y && dx == b.x - a.x && dy == b.y - a.y
  }

  lemma AlongIsParabola(
    p: Point, a: Point, b: Point, t: real, wx: real, wy: real, dx: real, dy: real, ww: real, wd: real, dd: real)
    requires Offsets(p, a, b, wx, wy, dx, dy) && Products(wx, wy, dx, dy, ww, wd, dd)
    ensures Dist2(p, Along(a, b, t)) == Parabola(ww, wd, dd, t)
  {
    AlongOffset(p, a, b, t, wx, wy, dx, dy);
    OffsetIsParabola(wx, wy, dx, dy, t);
  }

  lemma AlongOffset(p: Point, a: Point, b: Point, t: real, wx: real, wy: real, dx: real, dy: real)
    requires Offsets(p, a, b, wx, wy, dx, dy)
    ensures Dist2(p, Along(a, b, t)) == Square(wx - t * dx) + Square(wy - t * dy)
  {
    var q := Along(a, b, t);
    assert p.x - q.x == wx - t * dx && p.y - q.y == wy - t * dy;
  }

  lemma OffsetIsParabola(wx: real, wy: real, dx: real, dy: real, t: real)
    ensures Square(wx - t * dx) + Square(wy - t * dy)
            == Parabola(wx * wx + wy * wy, Dot(wx, wy, dx, dy), dx * dx + dy * dy, t)
  {
    OneAxis(wx, dx, t);
    OneAxis(wy, dy, t);
    TwoAxes(wx * wx, wy * wy, wx * dx, wy * dy, dx * dx, dy * dy, t);
  }

  lemma TwoAxes(w: real, w': real, u: real, v: real, x: real, y: real, t: real)
    ensures (w - 2.0 * (t * u) + t * t * x) + (w' - 2.0 * (t * v) + t * t * y) == Parabola(w + w', u + v, x + y, t)
  {
    Collect(t, u, v, x, y);
  }

  lemma Collect(t: real, u: real, v: real, x: real, y: real)
    ensures t * u + t * v == t * (u + v) && t * t * x + t * t * y == t * t * (x + y)
  {
  }

  lemma Difference(wd: real, dd: real, s: real, t: real)
    ensures Parabola(0.0, wd, dd, t) - Parabola(0.0, wd, dd, s) == (t - s) * ((t + s) * dd - 2.0 * wd)
  {
    assert (t - s) * ((t + s) * dd) == (t * t - s * s) * dd;
  }

  lemma ProductSign(x: real, y: real)
    ensures x >= 0.0 && y >= 0.0 ==> x * y >= 0.0
    ensures x <= 0.0 && y <= 0.0 ==> x * y >= 0.0
  {
  }

  lemma Scale(x: real, y: real, k: real)
    requires x <= y && k >= 0.0
    ensures x * k <= y * k
  {
    ProductSign(y - x, k);
    assert (y - x) * k == y * k - x * k;
  }

  /** On [0, 1] the parabola is smallest at its clamped vertex. */
  lemma ClampedVertexIsLeast(ww: real, wd: real, dd: real, t: real)
    requires dd > 0.0 && 0.0 <= t <= 1.0
    ensures Parabola(ww, wd, dd, Clamp(wd / dd)) <= Parabola(ww, wd, dd, t)
  {
    var v := wd / dd;
    assert v * dd == wd;
    var s := Clamp(v);
    Difference(wd, dd, s, t);
    var slope := (t + s) * dd - 2.0 * wd;
    assert slope == (t + s - 2.0 * v) * dd;
    if v < 0.0 {
      ProductSign(t + s - 2.0 * v, dd);
      ProductSign(t - s, slope);
    } else if v > 1.0 {
      ProductSign(2.0 * v - t - s, dd);
      assert slope == -((2.0 * v - t - s) * dd);
      ProductSign(t - s, slope);
    } else if t >= s {
      ProductSign(t - s, dd);
      ProductSign(t - s, slope);
    } else {
      ProductSign(s - t, dd);
      assert slope == -((s - t) * dd);
      ProductSign(t - s, slope);
    }
  }

  lemma FootIsNearest(p: Point, a: Point, b: Point, t: real)
    requires !Degenerate(a, b) && 0.0 <= t <= 1.0
    ensures SegmentDist2(p, a, b) <= Dist2(p, Along(a, b, t))
  {
    var wx, wy, dx, dy := p.x - a.x, p.y - a.y, b.x - a.x, b.y - a.y;
    var dd := dx * dx + dy * dy;
    SameLength(a, b, dd);
    FootIs(p, a, b, dx, dy, dd);
    NearestByParabola(
      p, a, b, Foot(p, a, b), t, wx, wy, dx, dy, wx * wx + wy * wy, Dot(wx, wy, dx, dy), dd);
  }

  lemma NearestByParabola(
    p: Point, a: Point, b: Point, s: real, t: real, wx: real, wy: real, dx: real, dy: real, ww: real, wd: real,
    dd: real)
    requires 0.0 <= t <= 1.0 && dd > 0.0 && s == Clamp(wd / dd)
    requires Offsets(p, a, b, wx, wy, dx, dy) && Products(wx, wy, dx, dy, ww, wd, dd)
    ensures Dist2(p, Along(a, b, s)) <= Dist2(p, Along(a, b, t))
  {
    AlongIsParabola(p, a, b, t, wx, wy, dx, dy, ww, wd, dd);
    AlongIsParabola(p, a, b, s, wx, wy, dx, dy, ww, wd, dd);
    ClampedVertexIsLeast(ww, wd, dd, t);
  }

  // ---------------------------------------------------------------- very short segments

  /** |u + v| <= |u| + |v|, for any upper bounds of the two lengths. */
  lemma Triangle(ux: real, uy: real, vx: real, vy: real, m: real, n: real)
    requires m >= 0.0 && n >= 0.0
    requires Square(ux) + Square(uy) <= Square(m) && Square(vx) + Square(vy) <= Square(n)
    ensures Square(ux + vx) + Square(uy + vy) <= Square(m + n)
  {
    var uu, vv, uv := Square(ux) + Square(uy), Square(vx) + Square(vy), Dot(ux, uy, vx, vy);
    Cauchy(ux, uy, vx, vy);
    assert uu >= 0.0 && vv >= 0.0;
    Scale(uu, Square(m), vv);
    Scale(vv, Square(n), Square(m));
    var mn := m * n;
    assert Square(m) * Square(n) == Square(mn) by { Reorder(m, n); }
    assert vv * Square(m) == Square(m) * vv && Square(n) * Square(m) == Square(m) * Square(n);
    assert mn >= 0.0 by { ProductSign(m, n); }
    RootOrder(uv, mn);
    assert Square(ux + vx) == Square(ux) + 2.0 * (ux * vx) + Square(vx);
    assert Square(uy + vy) == Square(uy) + 2.0 * (uy * vy) + Square(vy);
    assert Square(m + n) == Square(m) + 2.0 * mn + Square(n);
  }

  lemma Cauchy(ux: real, uy: real, vx: real, vy: real)
    ensures Square(Dot(ux, uy, vx, vy)) <= (Square(ux) + Square(uy)) * (Square(vx) + Square(vy))
  {
    var a, b, c, d := ux * vx, uy * vy, ux * vy, uy * vx;
    FourFactors(ux, uy, vx, vy);
    SumOfSquares(a, b, c, d);
    SquareOfProduct(ux, vx);
    SquareOfProduct(uy, vy);
    SquareOfProduct(ux, vy);
    SquareOfProduct(uy, vx);
    Expand(Square(ux), Square(uy), Square(vx), Square(vy));
    assert Dot(ux, uy, vx, vy) == a + b;
  }

  lemma SquareOfProduct(t: real, d: real)
    ensures Square(t * d) == Square(t) * Square(d)
  {
    Reorder(t, d);
  }

  lemma SumOfSquares(a: real, b: real, c: real, d: real)
    requires a * b == c * d
    ensures Square(a + b) <= Square(a) + Square(b) + Square(c) + Square(d)
  {
    assert Square(a + b) == Square(a) + 2.0 * (a * b) + Square(b);
    assert Square(c - d) == Square(c) - 2.0 * (c * d) + Square(d);
    assert Square(c - d) >= 0.0;
  }

  lemma FourFactors(ux: real, uy: real, vx: real, vy: real)
    ensures (ux * vx) * (uy * vy) == (ux * vy) * (uy * vx)
  {
    assert (ux * vx) * (uy * vy) == ux * (vx * (uy * vy));
    assert vx * (uy * vy) == vy * (uy * vx);
    assert ux * (vy * (uy * vx)) == (ux * vy) * (uy * vx);
  }

  lemma Expand(a: real, b: real, c: real, d: real)
    ensures (a + b) * (c + d) == a * c + b * d + a * d + b * c
  {
  }

  lemma RootOrder(x: real, y: real)
    requires y >= 0.0 && Square(x) <= Square(y)
    ensures x <= y
  {
    if x > y {
      Scale(y, x, y);
      Scale(y, x, x);
      assert x * x > y * y by {
        assert (x - y) * (x + y) == x * x - y * y;
        assert (x - y) * (x + y) > 0.0 by { PositiveProduct(x - y, x + y); }
      }
    }
  }

  lemma PositiveProduct(x: real, y: real)
    requires x > 0.0 && y > 0.0
    ensures x * y > 0.0
  {
  }

  /** The start of a segment is at most the segment's length away from any of its points. */
  lemma StartIsNear(a: Point, b: Point, t: real)
    requires 0.0 <= t <= 1.0
    ensures Dist2(Along(a, b, t), a) <= Dist2(a, b)
  {
    var dx, dy, q := b.x - a.x, b.y - a.y, Along(a, b, t);
    assert q.x - a.x == t * dx && q.y - a.y == t * dy;
    Shrink(t, dx);
    Shrink(t, dy);
    SameLength(a, b, dx * dx + dy * dy);
  }

  /** For a segment the code takes as a point, the answer is off by at most the segment's length. */
  lemma ShortSegmentError(p: Point, a: Point, b: Point, t: real, d: real, length: real)
    requires Degenerate(a, b) && 0.0 <= t <= 1.0 && d >= 0.0 && length >= 0.0
    requires Dist2(p, Along(a, b, t)) <= Square(d) && Dist2(a, b) <= Square(length)
    ensures SegmentDist2(p, a, b) <= Square(d + length)
  {
    PointCase(p, a, b);
    StartIsNear(a, b, t);
    ViaPoint(p, Along(a, b, t), a, d, length);
  }

  lemma ViaPoint(p: Point, q: Point, a: Point, m: real, n: real)
    requires m >= 0.0 && n >= 0.0 && Dist2(p, q) <= Square(m) && Dist2(q, a) <= Square(n)
    ensures Dist2(p, a) <= Square(m + n)
  {
    var ux, uy, vx, vy := p.x - q.x, p.y - q.y, q.x - a.x, q.y - a.y;
    Triangle(ux, uy, vx, vy, m, n);
    assert p.x - a.x == ux + vx && p.y - a.y == uy + vy;
  }

  lemma Shrink(t: real, d: real)
    requires 0.0 <= t <= 1.0
    ensures Square(t * d) <= Square(d)
  {
    Reorder(t, d);
    assert t * t <= 1.0 by { Scale(t, 1.0, t); }
    Scale(t * t, 1.0, d * d);
  }

  // ---------------------------------------------------------------- the whole path

  predicate OnPath(path: seq<Point>, i: nat, t: real) {
    i + 1 < |path| && 0.0 <= t <= 1.0
  }

  lemma {:induction false} NearestIsBelow(p: Point, path: seq<Point>, n: nat, start: Option<real>, i: nat)
    requires i < n < |path|
    ensures var r := Nearest(p, path, n, start);
            r.Some? && r.value <= SegmentDist2(p, path[i], path[i + 1])
  {
    if i < n - 1 {
      NearestIsBelow(p, path, n - 1, start, i);
    }
  }

  lemma {:induction false} NearestIsBelowStart(p: Point, path: seq<Point>, n: nat, start: Option<real>)
    requires n < |path| || n == 0
    ensures start.Some? ==> Nearest(p, path, n, start).Some? && Nearest(p, path, n, start).value <= start.value
  {
    if n > 0 {
      NearestIsBelowStart(p, path, n - 1, start);
    }
  }

  lemma {:induction false} NearestIsAttained(p: Point, path: seq<Point>, n: nat, start: Option<real>)
    requires n < |path| || n == 0
    ensures var r := Nearest(p, path, n, start);
            r == start || (r.Some? && Attained(p, path, r.value))
  {
    if n > 0 {
      NearestIsAttained(p, path, n - 1, start);
      var t := Foot(p, path[n - 1], path[n]);
      assert OnPath(path, n - 1, t);
    }
  }

  ghost predicate Attained(p: Point, path: seq<Point>, r: real) {
    exists i: nat, t: real :: OnPath(path, i, t) && r == Dist2(p, Along(path[i], path[i + 1], t))
  }

  /** No point of a segment of ordinary length is nearer. */
  ghost predicate NoneNearer(p: Point, path: seq<Point>, r: real) {
    forall i: nat, t: real :: OnPath(path, i, t) && Dist2(path[i], path[i + 1]) >= 0.000000000001 ==>
                                r <= Dist2(p, Along(path[i], path[i + 1], t))
  }

  /** A point of any segment at a distance up to `d` is nearer by at most that segment's length. */
  ghost predicate NoneMuchNearer(p: Point, path: seq<Point>, r: real) {
    forall i: nat, t: real, d: real, length: real ::
      OnPath(path, i, t) && d >= 0.0 && length >= 0.0
      && Dist2(p, Along(path[i], path[i + 1], t)) <= Square(d) && Dist2(path[i], path[i + 1]) <= Square(length)
      ==> r <= Square(d + length)
  }

  /** `best` is the start value or attained, at most the start value, and nothing is nearer but by the stated error. */
  ghost predicate IsDistance(p: Point, path: seq<Point>, start: Option<real>, best: Option<real>) {
    && best.Some? && (best == start || Attained(p, path, best.value))
    && (start.Some? ==> best.value <= start.value)
    && NoneNearer(p, path, best.value) && NoneMuchNearer(p, path, best.value)
  }

  lemma NearestHasNoneNearer(p: Point, path: seq<Point>, start: Option<real>)
    requires |path| >= 2
    ensures var r := Nearest(p, path, |path| - 1, start);
            r.Some? && NoneNearer(p, path, r.value)
  {
    var n := |path| - 1;
    NearestIsBelow(p, path, n, start, 0);
    forall i: nat, t: real | OnPath(path, i, t) && Dist2(path[i], path[i + 1]) >= 0.000000000001
      ensures Nearest(p, path, n, start).value <= Dist2(p, Along(path[i], path[i + 1], t))
    {
      NearestIsBelow(p, path, n, start, i);
      FootIsNearest(p, path[i], path[i + 1], t);
    }
  }

  lemma NearestHasNoneMuchNearer(p: Point, path: seq<Point>, start: Option<real>)
    requires |path| >= 2
    ensures var r := Nearest(p, path, |path| - 1, start);
            r.Some? && NoneMuchNearer(p, path, r.value)
  {
    var n := |path| - 1;
    NearestIsBelow(p, path, n, start, 0);
    forall i: nat, t: real, d: real, length: real |
      OnPath(path, i, t) && d >= 0.0 && length >= 0.0
      && Dist2(p, Along(path[i], path[i + 1], t)) <= Square(d) && Dist2(path[i], path[i + 1]) <= Square(length)
      ensures Nearest(p, path, n, start).value <= Square(d + length)
    {
      NearestIsBelow(p, path, n, start, i);
      AnySegmentError(p, path[i], path[i + 1], t, d, length);
    }
  }

  /**
   The answer is the distance of some point of the path (or the start value), no point of a segment of
   ordinary length is nearer, and no point of a very short one is nearer by more than its length.
   */
  lemma NearestIsTheDistance(p: Point, path: seq<Point>, start: Option<real>)
    requires |path| >= 2
    ensures IsDistance(p, path, start, Nearest(p, path, |path| - 1, start))
  {
    NearestIsAttained(p, path, |path| - 1, start);
    NearestIsBelowStart(p, path, |path| - 1, start);
    NearestHasNoneNearer(p, path, start);
    NearestHasNoneMuchNearer(p, path, start);
  }

  lemma AnySegmentError(p: Point, a: Point, b: Point, t: real, d: real, length: real)
    requires 0.0 <= t <= 1.0 && d >= 0.0 && length >= 0.0
    requires Dist2(p, Along(a, b, t)) <= Square(d) && Dist2(a, b) <= Square(length)
    ensures SegmentDist2(p, a, b) <= Square(d + length)
  {
    if Degenerate(a, b) {
      ShortSegmentError(p, a, b, t, d, length);
    } else {
      FootIsNearest(p, a, b, t);
      assert Square(d + length) == Square(d) + 2.0 * (d * length) + Square(length);
      ProductSign(d, length);
    }
  }
}
