/** Derived navigation limits: ros2/scripts/compute_nav2_params.py, over the reals and before output rounding. */
module NavParams {
  function Abs(x: real): real {
    if x < 0.0 then -x else x
  }

  function Min(x: real, y: real): real {
    if y < x then y else x
  }

  function Max(x: real, y: real): real {
    if y > x then y else x
  }

  function Square(x: real): real {
    x * x
  }

  // ---------------------------------------------------------------- wheel saturation

  const RATE_LOOP_LIMIT := 1.5

  /** The yaw rate at which one wheel reaches `(1 + clip) * maxMps` while driving at `vx`. */
  function SaturationRate(maxMps: real, clip: real, vx: real, track: real): real
    requires track > 0.0
  {
    2.0 * ((1.0 + clip) * maxMps - vx) / track
  }

  /** The pivot rate at full wheel speed, as far as the firmware's rate loop lets it through. */
  function WzCeiling(maxMps: real, track: real): real
    requires track > 0.0
  {
    Min(2.0 * maxMps / track, RATE_LOOP_LIMIT)
  }

  function WzMax(maxMps: real, clip: real, vxMax: real, track: real): real
    requires track > 0.0
  {
    Min(WzCeiling(maxMps, track), SaturationRate(maxMps, clip, vxMax, track))
  }

  /** The faster of the two wheels under a commanded twist. */
  function FasterWheel(vx: real, wz: real, track: real): real {
    Max(Abs(vx + wz * track / 2.0), Abs(vx - wz * track / 2.0))
  }

  lemma HalfTrack(maxMps: real, clip: real, vx: real, track: real)
    requires track > 0.0
    ensures SaturationRate(maxMps, clip, vx, track) * track / 2.0 == (1.0 + clip) * maxMps - vx
  {
    var c := (1.0 + clip) * maxMps - vx;
    assert (2.0 * c / track) * track == 2.0 * c;
  }

  lemma TimesTrack(wz: real, limit: real, track: real)
    requires track > 0.0 && Abs(wz) <= limit
    ensures Abs(wz * track / 2.0) <= limit * track / 2.0
  {
    assert (limit - wz) * track >= 0.0;
    assert (limit + wz) * track >= 0.0;
    assert (limit - wz) * track == limit * track - wz * track;
    assert (limit + wz) * track == limit * track + wz * track;
  }

  lemma SumOfBounds(vx: real, turn: real, v: real, t: real)
    requires Abs(vx) <= v && Abs(turn) <= t
    ensures Abs(vx + turn) <= v + t && Abs(vx - turn) <= v + t
  {
  }

  lemma WithinSaturation(maxMps: real, clip: real, vxMax: real, track: real, vx: real, wz: real)
    requires track > 0.0 && Abs(vx) <= vxMax && Abs(wz) <= SaturationRate(maxMps, clip, vxMax, track)
    ensures FasterWheel(vx, wz, track) <= (1.0 + clip) * maxMps
  {
    var s, limit := SaturationRate(maxMps, clip, vxMax, track), (1.0 + clip) * maxMps;
    HalfTrack(maxMps, clip, vxMax, track);
    TimesTrack(wz, s, track);
    SumOfBounds(vx, wz * track / 2.0, vxMax, limit - vxMax);
  }

  /** Turning at up to `w` keeps both wheels within `limit` at every speed up to `vxMax`. */
  ghost predicate KeepsWheels(limit: real, vxMax: real, track: real, w: real) {
    forall vx, wz :: Abs(vx) <= vxMax && Abs(wz) <= w ==> FasterWheel(vx, wz, track) <= limit
  }

  lemma KeepsWheelsExactly(limit: real, vxMax: real, track: real, w: real)
    requires track > 0.0 && vxMax >= 0.0 && w >= 0.0
    ensures KeepsWheels(limit, vxMax, track, w) <==> w * track / 2.0 <= limit - vxMax
  {
    assert w * track >= 0.0;
    if w * track / 2.0 <= limit - vxMax {
      forall vx, wz | Abs(vx) <= vxMax && Abs(wz) <= w ensures FasterWheel(vx, wz, track) <= limit {
        TimesTrack(wz, w, track);
        SumOfBounds(vx, wz * track / 2.0, vxMax, w * track / 2.0);
      }
    } else {
      assert FasterWheel(vxMax, w, track) > limit;
    }
  }

  lemma RateExactly(w: real, c: real, track: real)
    requires track > 0.0
    ensures w <= 2.0 * c / track <==> w * track / 2.0 <= c
  {
    var r := 2.0 * c / track;
    assert r * track == 2.0 * c;
    if w <= r {
      assert (r - w) * track >= 0.0;
    } else {
      assert (w - r) * track > 0.0;
    }
  }

  /**
   A bound on the turn rate keeps both wheels in limit at every admitted speed exactly up to the
   saturation rate. The smaller of that and any ceiling, rounded or not, is such a bound.
   */
  lemma TurnRateIsSafeExactly(maxMps: real, clip: real, vxMax: real, track: real, w: real)
    requires track > 0.0 && vxMax >= 0.0 && w >= 0.0
    ensures KeepsWheels((1.0 + clip) * maxMps, vxMax, track, w) <==> w <= SaturationRate(maxMps, clip, vxMax, track)
  {
    KeepsWheelsExactly((1.0 + clip) * maxMps, vxMax, track, w);
    RateExactly(w, (1.0 + clip) * maxMps - vxMax, track);
  }

  /** No twist within the derived limits drives a wheel past its clipped top speed. */
  lemma WheelsStayWithinLimit(maxMps: real, clip: real, vxMax: real, track: real, vx: real, wz: real)
    requires track > 0.0 && Abs(vx) <= vxMax && Abs(wz) <= WzMax(maxMps, clip, vxMax, track)
    ensures FasterWheel(vx, wz, track) <= (1.0 + clip) * maxMps && Abs(wz) <= RATE_LOOP_LIMIT
  {
    WithinSaturation(maxMps, clip, vxMax, track, vx, wz);
  }

  // ---------------------------------------------------------------- footprint and zones

  /** A rectangle around the robot's axis: x from rear to front, y up to halfWidth on both sides. */
  datatype Rect = Rect(front: real, rear: real, halfWidth: real) {
    predicate Has(x: real, y: real) {
      rear <= x <= front && -halfWidth <= y <= halfWidth
    }

    predicate Proper() {
      rear <= front && halfWidth >= 0.0
    }
  }

  function Footprint(length: real, width: real, centerX: real, margin: real): Rect {
    Rect(centerX + length / 2.0 + margin, centerX - length / 2.0 - margin, width / 2.0 + margin)
  }

  function Inscribed(r: Rect): real {
    Min(Min(Abs(r.front), Abs(r.rear)), r.halfWidth)
  }

  /** The square of the largest corner distance. */
  function Circumscribed2(r: Rect): real {
    Max(Square(r.front) + Square(r.halfWidth), Square(r.rear) + Square(r.halfWidth))
  }

  lemma SquareOrder(x: real, r: real)
    requires r >= 0.0
    ensures Square(x) <= Square(r) <==> Abs(x) <= r
  {
    assert Square(x) == Square(Abs(x));
    var y := Abs(x);
    assert (r - y) * (r + y) == Square(r) - Square(y);
    if y <= r {
      assert (r - y) * (r + y) >= 0.0;
    } else {
      NegativeProduct(r - y, r + y);
    }
  }

  lemma NegativeProduct(x: real, y: real)
    requires x < 0.0 && y > 0.0
    ensures x * y < 0.0
  {
  }

  lemma SquareIsNonNegative(x: real)
    ensures Square(x) >= 0.0
  {
  }

  lemma PointInDisk(r: Rect, x: real, y: real)
    requires r.Proper() && r.rear <= 0.0 <= r.front && Square(x) + Square(y) <= Square(Inscribed(r))
    ensures r.Has(x, y)
  {
    SquareIsNonNegative(x);
    SquareIsNonNegative(y);
    SquareOrder(x, Inscribed(r));
    SquareOrder(y, Inscribed(r));
  }

  /** The inscribed disk lies in the footprint exactly when the origin does. */
  lemma InscribedDiskFitsExactly(r: Rect)
    requires r.Proper()
    ensures (forall x, y :: Square(x) + Square(y) <= Square(Inscribed(r)) ==> r.Has(x, y)) <==> r.rear <= 0.0 <= r.front
  {
    if r.rear <= 0.0 <= r.front {
      forall x, y | Square(x) + Square(y) <= Square(Inscribed(r)) ensures r.Has(x, y) {
        PointInDisk(r, x, y);
      }
    } else {
      SquareIsNonNegative(Inscribed(r));
      assert Square(0.0) + Square(0.0) <= Square(Inscribed(r)) && !r.Has(0.0, 0.0);
    }
  }

  /** The footprint lies in the circumscribed disk, and some corner is on its edge. */
  lemma CircumscribedDiskCovers(r: Rect, x: real, y: real)
    requires r.Proper() && r.Has(x, y)
    ensures Square(x) + Square(y) <= Circumscribed2(r)
    ensures Circumscribed2(r) == Square(r.front) + Square(r.halfWidth)
            || Circumscribed2(r) == Square(r.rear) + Square(r.halfWidth)
  {
    SquareOrder(y, r.halfWidth);
    if x >= 0.0 {
      SquareOrder(x, r.front);
    } else {
      SquareOrder(x, -r.rear);
      assert Square(-r.rear) == Square(r.rear);
    }
  }

  /** Stopping distance at speed `v`: braking, plus the way covered before reacting. */
  function StoppingDistance(v: real, decel: real, reaction: real): real
    requires decel > 0.0
  {
    v * v / (2.0 * decel) + v * reaction
  }

  function SlowZone(r: Rect, v: real, decel: real, reaction: real, margin: real): Rect
    requires decel > 0.0
  {
    Rect(r.front + StoppingDistance(v, decel, reaction), r.rear - margin, r.halfWidth + margin)
  }

  function StopZone(r: Rect, v: real, reaction: real, margin: real): Rect {
    Rect(r.front + v * reaction, r.rear - margin, r.halfWidth + margin)
  }

  ghost predicate Within(inner: Rect, outer: Rect) {
    forall x, y :: inner.Has(x, y) ==> outer.Has(x, y)
  }

  /** A proper rectangle lies in another exactly when its bounds do. */
  lemma WithinExactly(inner: Rect, outer: Rect)
    requires inner.Proper()
    ensures Within(inner, outer)
            <==> outer.rear <= inner.rear && inner.front <= outer.front && inner.halfWidth <= outer.halfWidth
  {
    if Within(inner, outer) {
      assert inner.Has(inner.front, inner.halfWidth) && inner.Has(inner.rear, inner.halfWidth);
    }
  }

  lemma BrakingWayIsNonNegative(v: real, decel: real)
    requires decel > 0.0
    ensures v * v / (2.0 * decel) >= 0.0
  {
    SquareIsNonNegative(v);
  }

  /**
   Footprint, stop zone and slow zone nest exactly when the distance covered before reacting and the
   stop margin are not negative and the stop margin is not above the slow one.
   */
  lemma ZonesNestExactly(r: Rect, v: real, decel: real, reaction: real, stopMargin: real, slowMargin: real)
    requires r.Proper() && decel > 0.0
    ensures Within(r, StopZone(r, v, reaction, stopMargin)) <==> v * reaction >= 0.0 && stopMargin >= 0.0
    ensures StopZone(r, v, reaction, stopMargin).Proper() ==>
              (Within(StopZone(r, v, reaction, stopMargin), SlowZone(r, v, decel, reaction, slowMargin))
               <==> stopMargin <= slowMargin)
  {
    BrakingWayIsNonNegative(v, decel);
    WithinExactly(r, StopZone(r, v, reaction, stopMargin));
    if StopZone(r, v, reaction, stopMargin).Proper() {
      WithinExactly(StopZone(r, v, reaction, stopMargin), SlowZone(r, v, decel, reaction, slowMargin));
    }
  }

  // ---------------------------------------------------------------- the derived footprint

  /** The derived footprint holds its inscribed disk exactly when the axis lies within the chassis and margin. */
  lemma FootprintDisksNestExactly(length: real, width: real, centerX: real, margin: real)
    requires length >= 0.0 && width >= 0.0 && margin >= 0.0
    ensures var r := Footprint(length, width, centerX, margin);
            && ((forall x, y :: Square(x) + Square(y) <= Square(Inscribed(r)) ==> r.Has(x, y))
                <==> Abs(centerX) <= length / 2.0 + margin)
            && (forall x, y :: r.Has(x, y) ==> Square(x) + Square(y) <= Circumscribed2(r))
  {
    var r := Footprint(length, width, centerX, margin);
    InscribedDiskFitsExactly(r);
    forall x, y | r.Has(x, y) ensures Square(x) + Square(y) <= Circumscribed2(r) {
      CircumscribedDiskCovers(r, x, y);
    }
  }

  /** Derived footprint, stop zone and slow zone nest exactly for a non-negative reaction way and ordered margins. */
  lemma FootprintZonesNestExactly(
    length: real, width: real, centerX: real, margin: real, v: real, decel: real, reaction: real, stopMargin: real,
    slowMargin: real)
    requires length >= 0.0 && width >= 0.0 && margin >= 0.0 && decel > 0.0
    ensures var r := Footprint(length, width, centerX, margin);
            var stop, slow := StopZone(r, v, reaction, stopMargin), SlowZone(r, v, decel, reaction, slowMargin);
            Within(r, stop) && Within(stop, slow) <==> v * reaction >= 0.0 && 0.0 <= stopMargin <= slowMargin
  {
    ZonesNestExactly(Footprint(length, width, centerX, margin), v, decel, reaction, stopMargin, slowMargin);
  }

  // ---------------------------------------------------------------- nothing larger would do

  /** Of the disks around an origin inside the rectangle exactly those up to the inscribed radius fit. */
  lemma InscribedIsLargest(r: Rect, q: real)
    requires r.Proper() && r.rear <= 0.0 <= r.front && q >= 0.0
    ensures (forall x, y :: Square(x) + Square(y) <= Square(q) ==> r.Has(x, y)) <==> q <= Inscribed(r)
  {
    if q <= Inscribed(r) {
      SquareOrder(q, Inscribed(r));
      forall x, y | Square(x) + Square(y) <= Square(q) ensures r.Has(x, y) {
        PointInDisk(r, x, y);
      }
    } else {
      assert Square(-q) == Square(q) && Square(0.0) == 0.0;
      assert Square(q) + Square(0.0) <= Square(q) && Square(-q) + Square(0.0) <= Square(q);
      assert Square(0.0) + Square(q) <= Square(q);
      assert !r.Has(q, 0.0) || !r.Has(-q, 0.0) || !r.Has(0.0, q);
    }
  }

  lemma PivotExactly(maxMps: real, track: real, w: real)
    requires track > 0.0 && w >= 0.0
    ensures KeepsWheels(maxMps, 0.0, track, w) <==> w <= 2.0 * maxMps / track
  {
    KeepsWheelsExactly(maxMps, 0.0, track, w);
    RateExactly(w, maxMps, track);
  }

  /**
   The derived turn rate is the largest that keeps both wheels within the clipped limit at every admitted
   speed, within the limit itself when turning in place, and within the rate loop's 1.5 rad/s.
   */
  lemma TurnRateIsLargest(maxMps: real, clip: real, vxMax: real, track: real, w: real)
    requires track > 0.0 && vxMax >= 0.0 && w >= 0.0
    ensures w <= WzMax(maxMps, clip, vxMax, track) <==>
            && KeepsWheels((1.0 + clip) * maxMps, vxMax, track, w) && KeepsWheels(maxMps, 0.0, track, w) && w <= 1.5
  {
    TurnRateIsSafeExactly(maxMps, clip, vxMax, track, w);
    PivotExactly(maxMps, track, w);
  }

  /** Reacting at full speed, then slowing down evenly to a stop at time `t`: the way that takes. */
  lemma StoppingDistanceIsBraking(v: real, decel: real, reaction: real, t: real)
    requires decel > 0.0 && v - decel * t == 0.0
    ensures StoppingDistance(v, decel, reaction) == v * reaction + v * t - decel * t * t / 2.0
  {
    assert v == decel * t;
    assert v * v == decel * t * (decel * t);
    assert v * v / (2.0 * decel) == decel * t * t / 2.0;
    assert v * t == decel * t * t;
  }

  /** The rectangles, point by point: the chassis grown by the margin, and what each zone adds in front and around. */
  lemma RectanglesExactly(
    length: real, width: real, centerX: real, margin: real, v: real, decel: real, reaction: real, extra: real, x: real,
    y: real)
    requires decel > 0.0
    ensures var r := Footprint(length, width, centerX, margin);
            && (r.Has(x, y) <==> Abs(x - centerX) <= length / 2.0 + margin && Abs(y) <= width / 2.0 + margin)
            && (StopZone(r, v, reaction, extra).Has(x, y) <==>
                  && centerX - length / 2.0 - margin - extra <= x <= centerX + length / 2.0 + margin + v * reaction
                  && Abs(y) <= width / 2.0 + margin + extra)
            && (SlowZone(r, v, decel, reaction, extra).Has(x, y) <==>
                  && centerX - length / 2.0 - margin - extra <= x
                  && x <= centerX + length / 2.0 + margin + StoppingDistance(v, decel, reaction)
                  && Abs(y) <= width / 2.0 + margin + extra)
  {
  }
}
