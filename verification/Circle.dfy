/** The midpoint circle: integer differences against the exact quadratic, and how close the plot is. */
module Circle {
  import opened Machine
  import opened Graphics

  // ---------- the exact rule ----------

  /** Which row the next column is plotted in, decided by the sign of the midpoint's quadratic. */
  function NextRow(r: int, x: int, y: int): int {
    if Midpoint(r, x, y) >= 0 then y - 1 else y
  }

  function Midpoint(r: int, x: int, y: int): int {
    (x + 1) * (x + 1) + y * y - y - r * r
  }

  /** The octant points plotted after column `x`, where the row is `y`. */
  function Octant(r: int, x: int, y: int): seq<Point>
    decreases y - x
  {
    if x >= y then []
    else [Point(x + 1, NextRow(r, x, y))] + Octant(r, x + 1, NextRow(r, x, y))
  }

  /** Row `y` brackets the circle at column `x`, up to half a pixel. */
  predicate Near(r: int, x: int, y: int) {
    y * y - y <= r * r - x * x <= y * y + y
  }

  /** `y` is strictly closer to the true height than any other row: |sqrt(r*r - x*x) - y| < 1/2. */
  predicate Nearest(r: int, x: int, y: int) {
    (y == 0 || (2 * y - 1) * (2 * y - 1) < 4 * (r * r - x * x)) && 4 * (r * r - x * x) < (2 * y + 1) * (2 * y + 1)
  }

  /** The state of the loop between columns. */
  ghost predicate OnArc(r: int, x: int, y: int) {
    0 <= x && 0 <= y <= r && x <= y + 1 && Near(r, x, y) && (x <= y && r > 0 ==> y * y - y < r * r - x * x)
  }

  lemma NextOnArc(r: int, x: int, y: int)
    requires OnArc(r, x, y) && x < y
    ensures OnArc(r, x + 1, NextRow(r, x, y)) && x + 1 <= r
  {
    assert (x + 1) * (x + 1) == x * x + 2 * x + 1;
    assert (y - 1) * (y - 1) == y * y - 2 * y + 1;
  }

  /** Every plotted octant point brackets the circle. */
  lemma {:induction false} OctantIsNear(r: int, x: int, y: int, p: Point)
    requires OnArc(r, x, y) && p in Octant(r, x, y)
    ensures OnArc(r, p.x, p.y) && 0 < p.x <= r
    decreases y - x
  {
    NextOnArc(r, x, y);
    if p != Point(x + 1, NextRow(r, x, y)) {
      OctantIsNear(r, x + 1, NextRow(r, x, y), p);
    }
  }

  lemma StartOnArc(r: int)
    requires r >= 0
    ensures OnArc(r, 0, r)
  {
    assert r > 0 ==> r * r - r < r * r;
  }

  // ---------- exactly when the plot is the nearest one ----------

  lemma NearestIsStrict(r: int, x: int, y: int)
    requires y >= 0
    ensures Nearest(r, x, y) <==>
            (y == 0 || y * y - y < r * r - x * x) && r * r - x * x <= y * y + y
  {
    assert (2 * y - 1) * (2 * y - 1) == 4 * (y * y - y) + 1;
    assert (2 * y + 1) * (2 * y + 1) == 4 * (y * y + y) + 1;
  }

  /** Up to the diagonal every plotted point is the nearest one. */
  lemma NearestToTheDiagonal(r: int, p: Point)
    requires r >= 0 && p in Octant(r, 0, r) && p.x <= p.y
    ensures Nearest(r, p.x, p.y)
  {
    StartOnArc(r);
    OctantIsNear(r, 0, r, p);
    NearestIsStrict(r, p.x, p.y);
  }

  /** Radii whose last point, one past the diagonal, falls on the wrong side of the half-way mark. */
  ghost predicate Overshoots(r: int) {
    exists x :: 2 <= x <= r && Overshoot(r, x)
  }

  predicate Overshoot(r: int, x: int) {
    r * r == 2 * x * x - 3 * x + 2
  }

  /** The plot is the nearest one everywhere exactly for the radii that do not overshoot. */
  lemma NearestIffNoOvershoot(r: int)
    requires r >= 0
    ensures (forall p :: p in Octant(r, 0, r) ==> Nearest(r, p.x, p.y)) <==> !Overshoots(r)
  {
    hide Octant, Nearest, Overshoot;
    StartOnArc(r);
    if x :| 2 <= x <= r && Overshoot(r, x) {
      ReachesOvershoot(r, 0, r, x);
      OvershootIsFar(r, x);
      assert Point(x, x - 1) in Octant(r, 0, r);
    } else {
      forall p | p in Octant(r, 0, r) ensures Nearest(r, p.x, p.y) {
        OctantIsNear(r, 0, r, p);
        FarIsOvershoot(r, p.x, p.y);
      }
    }
  }

  lemma OvershootIsFar(r: int, x: int)
    requires 2 <= x && Overshoot(r, x)
    ensures !Nearest(r, x, x - 1)
  {
    NearestIsStrict(r, x, x - 1);
    assert (x - 1) * (x - 1) == x * x - 2 * x + 1;
  }

  lemma FarIsOvershoot(r: int, x: int, y: int)
    requires OnArc(r, x, y) && 0 < x <= r
    ensures Nearest(r, x, y) || (2 <= x && Overshoot(r, x))
  {
    NearestIsStrict(r, x, y);
    if x == y + 1 {
      assert y * y == x * x - 2 * x + 1;
    }
  }

  lemma {:induction false} ReachesOvershoot(r: int, x: int, y: int, last: int)
    requires OnArc(r, x, y) && x < y && 2 <= last <= r && Overshoot(r, last) && x < last
    ensures Point(last, last - 1) in Octant(r, x, y)
    decreases last - x
  {
    hide NextRow, Overshoot, Near;
    NextOnArc(r, x, y);
    if x == last - 1 {
      LastRow(r, y, last);
    } else {
      StillRunning(r, x + 1, NextRow(r, x, y), last);
      ReachesOvershoot(r, x + 1, NextRow(r, x, y), last);
    }
  }

  lemma LastRow(r: int, y: int, last: int)
    requires OnArc(r, last - 1, y) && last - 1 < y && 2 <= last <= r && Overshoot(r, last)
    ensures NextRow(r, last - 1, y) == last - 1
  {
    assert (last - 1) * (last - 1) == last * last - 2 * last + 1;
    RowIsUnique(r * r - (last - 1) * (last - 1), y, last);
  }

  lemma RowIsUnique(v: int, y: int, z: int)
    requires y >= 0 && z >= 0 && y * y - y < v <= y * y + y && z * z - z < v <= z * z + z
    ensures y == z
  {
    if y < z {
      BandsAreDisjoint(y, z);
    } else if z < y {
      BandsAreDisjoint(z, y);
    }
  }

  lemma BandsAreDisjoint(a: int, b: int)
    requires 0 <= a < b
    ensures a * a + a <= b * b - b
  {
    assert (b - a - 1) * (b + a) >= 0;
  }

  /** A radius that overshoots keeps the loop going until its last column. */
  lemma StillRunning(r: int, x: int, y: int, last: int)
    requires Near(r, x, y) && 0 <= x < last && 0 <= y && Overshoot(r, last)
    ensures x < y
  {
    LaterIsLarger(x, last);
    if y <= x {
      SquaresGrow(y, x);
    }
  }

  lemma SquaresGrow(y: int, x: int)
    requires 0 <= y <= x
    ensures y * y + y <= x * x + x
  {
    assert (x - y) * (x + y + 1) >= 0;
  }

  lemma LaterIsLarger(x: int, last: int)
    requires 0 <= x < last
    ensures x * x + x * x + x < 2 * last * last - 3 * last + 2
  {
    var d := last - x - 1;
    assert last * last == x * x + 1 + d * d + 2 * x + 2 * x * d + 2 * d by { assert last == x + 1 + d; }
    assert d * d >= 0 && x * d >= 0;
    assert 2 * last * last == 2 * (last * last);
  }

  /** Radius 2 does overshoot: it plots (2, 1), a whole pixel from where the circle meets the axis. */
  lemma RadiusTwoOvershoots()
    ensures Overshoots(2) && Point(2, 1) in Octant(2, 0, 2) && !Nearest(2, 2, 1)
  {
    assert Overshoot(2, 2);
    assert Octant(2, 1, 2) == [Point(2, 1)] + Octant(2, 2, 1);
    assert Octant(2, 0, 2) == [Point(1, 2)] + Octant(2, 1, 2);
  }

  // ---------- the incremental loop ----------

  function AxisPoints(x0: int, y0: int, r: int): seq<Point> {
    [Point(x0, y0 + r), Point(x0, y0 - r), Point(x0 + r, y0), Point(x0 - r, y0)]
  }

  /** A point of the octant mirrored into all eight. */
  function EightFold(x0: int, y0: int, p: Point): seq<Point> {
    [Point(x0 + p.x, y0 + p.y), Point(x0 - p.x, y0 + p.y), Point(x0 + p.x, y0 - p.y), Point(x0 - p.x, y0 - p.y),
     Point(x0 + p.y, y0 + p.x), Point(x0 - p.y, y0 + p.x), Point(x0 + p.y, y0 - p.x), Point(x0 - p.y, y0 - p.x)]
  }

  function Mirrored(x0: int, y0: int, octant: seq<Point>): seq<Point> {
    if octant == [] then [] else EightFold(x0, y0, octant[0]) + Mirrored(x0, y0, octant[1..])
  }

  method PlotEight(canvas: Canvas, x0: int16, y0: int16, x: int16, y: int16)
    requires Int16(x0 + x) && Int16(x0 - x) && Int16(y0 + y) && Int16(y0 - y)
    requires Int16(x0 + y) && Int16(x0 - y) && Int16(y0 + x) && Int16(y0 - x)
    modifies canvas`points
    ensures canvas.points == old(canvas.points) + EightFold(x0, y0, Point(x, y))
  {
    canvas.DrawPixel(x0 + x, y0 + y);
    canvas.DrawPixel(x0 - x, y0 + y);
    canvas.DrawPixel(x0 + x, y0 - y);
    canvas.DrawPixel(x0 - x, y0 - y);
    canvas.DrawPixel(x0 + y, y0 + x);
    canvas.DrawPixel(x0 - y, y0 + x);
    canvas.DrawPixel(x0 + y, y0 - x);
    canvas.DrawPixel(x0 - y, y0 - x);
  }

  /** One turn of the recurrence: additions only, never leaving 16 bits, yet deciding as the exact rule does. */
  method Advance(f: int16, ddFx: int16, ddFy: int16, x: int16, y: int16, ghost r: int)
    returns (f': int16, ddFx': int16, ddFy': int16, x': int16, y': int16)
    requires 0 <= r <= 0x4000 && OnArc(r, x, y) && x < y
    requires f == Midpoint(r, x, y) && ddFx == 2 * x + 1 && ddFy == -2 * y
    ensures x' == x + 1 && y' == NextRow(r, x, y) <= y && OnArc(r, x', y') && x' <= r
    ensures f' == Midpoint(r, x', y') && ddFx' == 2 * x' + 1 && ddFy' == -2 * y'
  {
    NextOnArc(r, x, y);
    NextMidpoint(r, x, y);
    hide Near, Midpoint;
    f', ddFx', ddFy', x', y' := f, ddFx, ddFy, x, y;
    if f' >= 0 {
      y' := y' - 1;
      ddFy' := ddFy' + 2;
      f' := f' + ddFy';
    }
    x' := x' + 1;
    ddFx' := ddFx' + 2;
    f' := f' + ddFx';
  }

  /** Plots the exact octant, eightfold, with every variable within 16 bits up to radius 16384. */
  method DrawCircle(canvas: Canvas, x0: int16, y0: int16, r: int16)
    requires -0x4000 < r <= 0x4000
    requires Int16(x0 + r) && Int16(x0 - r) && Int16(y0 + r) && Int16(y0 - r)
    modifies canvas`points
    ensures canvas.points == old(canvas.points) + AxisPoints(x0, y0, r) + Mirrored(x0, y0, Octant(r, 0, r))
  {
    hide EightFold, Mirrored, Near, Midpoint, NextRow;
    var f: int16 := 1 - r;
    var ddFx: int16 := 1;
    var ddFy: int16 := -2 * r;
    var x: int16 := 0;
    var y: int16 := r;
    canvas.DrawPixel(x0, y0 + r);
    canvas.DrawPixel(x0, y0 - r);
    canvas.DrawPixel(x0 + r, y0);
    canvas.DrawPixel(x0 - r, y0);
    assert canvas.points == old(canvas.points) + AxisPoints(x0, y0, r);
    ghost var all := canvas.points + Mirrored(x0, y0, Octant(r, 0, r));
    if r >= 0 { StartOnArc(r); }
    MidpointAtStart(r);
    MirroredSplits(x0, y0, Point(0, 0), []);
    while x < y
      invariant r >= 0 ==> OnArc(r, x, y)
      invariant r < 0 ==> x > y
      invariant f == Midpoint(r, x, y) && ddFx == 2 * x + 1 && ddFy == -2 * y
      invariant canvas.points + Mirrored(x0, y0, Octant(r, x, y)) == all
    {
      ghost var rest := Octant(r, x, y);
      f, ddFx, ddFy, x, y := Advance(f, ddFx, ddFy, x, y, r);
      MirroredSplits(x0, y0, Point(x, y), Octant(r, x, y));
      assert rest == [Point(x, y)] + Octant(r, x, y);
      PlotEight(canvas, x0, y0, x, y);
    }
    assert Octant(r, x, y) == [];
  }

  lemma MirroredSplits(x0: int, y0: int, p: Point, rest: seq<Point>)
    ensures Mirrored(x0, y0, []) == []
    ensures Mirrored(x0, y0, [p] + rest) == EightFold(x0, y0, p) + Mirrored(x0, y0, rest)
  {
    assert ([p] + rest)[1..] == rest;
  }

  /** How the midpoint's quadratic moves with each variable, and the range it stays in. */
  lemma MidpointSteps(r: int, x: int, y: int)
    requires OnArc(r, x, y)
    ensures Midpoint(r, x, y - 1) == Midpoint(r, x, y) - 2 * (y - 1)
    ensures Midpoint(r, x + 1, y) == Midpoint(r, x, y) + 2 * x + 3
    ensures Midpoint(r, x + 1, y - 1) == Midpoint(r, x, y) - 2 * (y - 1) + 2 * x + 3
    ensures 2 * x + 1 - 2 * y <= Midpoint(r, x, y) <= 2 * x + 1
  {
    assert (x + 1) * (x + 1) == x * x + 2 * x + 1;
    assert (x + 2) * (x + 2) == x * x + 4 * x + 4;
    assert (y - 1) * (y - 1) == y * y - 2 * y + 1;
  }

  lemma MidpointAtStart(r: int)
    ensures Midpoint(r, 0, r) == 1 - r
  {
  }

  lemma NextMidpoint(r: int, x: int, y: int)
    requires OnArc(r, x, y) && x < y
    ensures var y' := NextRow(r, x, y);
            && Midpoint(r, x + 1, y') == Midpoint(r, x, y) + (if y' == y then 0 else -2 * y') + 2 * x + 3
            && 2 * x + 3 - 2 * y' <= Midpoint(r, x + 1, y') <= 2 * x + 3
            && 2 * x + 1 - 2 * y <= Midpoint(r, x, y) <= 2 * x + 1
  {
    NextOnArc(r, x, y);
    MidpointSteps(r, x, y);
    MidpointSteps(r, x + 1, NextRow(r, x, y));
  }

  // ---------- all that is plotted ----------

  /** A pixel is a mirrored point exactly if its distances from the centre, in one order, are in the octant. */
  lemma {:induction false} MirroredPoints(x0: int, y0: int, octant: seq<Point>, q: Point)
    requires forall p :: p in octant ==> p.x >= 0 && p.y >= 0
    ensures q in Mirrored(x0, y0, octant) <==>
            var dx, dy := Abs(q.x - x0), Abs(q.y - y0); Point(dx, dy) in octant || Point(dy, dx) in octant
  {
    if octant != [] {
      MirroredPoints(x0, y0, octant[1..], q);
      EightPoints(x0, y0, octant[0], q);
      hide EightFold;
      assert forall p :: p in octant <==> p == octant[0] || p in octant[1..];
    }
  }

  lemma EightPoints(x0: int, y0: int, p: Point, q: Point)
    requires p.x >= 0 && p.y >= 0
    ensures q in EightFold(x0, y0, p) <==>
            var dx, dy := Abs(q.x - x0), Abs(q.y - y0); Point(dx, dy) == p || Point(dy, dx) == p
  {
  }

  /** The other four are those at the distance of the radius on the two axes. */
  lemma AxisPointsAre(x0: int, y0: int, r: int, q: Point)
    ensures q in AxisPoints(x0, y0, r) <==>
            || (q.x == x0 && Abs(q.y - y0) == Abs(r))
            || (q.y == y0 && Abs(q.x - x0) == Abs(r))
  {
  }

  /** Everything a circle plots, without its mirroring: the axis points, and the octant in all eight directions. */
  lemma CirclePoints(x0: int, y0: int, r: int, q: Point)
    ensures q in AxisPoints(x0, y0, r) + Mirrored(x0, y0, Octant(r, 0, r)) <==>
            var dx, dy := Abs(q.x - x0), Abs(q.y - y0);
            || (dx == 0 && dy == Abs(r)) || (dy == 0 && dx == Abs(r))
            || Point(dx, dy) in Octant(r, 0, r) || Point(dy, dx) in Octant(r, 0, r)
    ensures |AxisPoints(x0, y0, r) + Mirrored(x0, y0, Octant(r, 0, r))| == 4 + 8 * |Octant(r, 0, r)|
  {
    var octant := Octant(r, 0, r);
    EightEach(x0, y0, octant);
    assert |AxisPoints(x0, y0, r)| == 4;
    hide Octant, Mirrored, AxisPoints;
    forall p | p in octant ensures p.x >= 0 && p.y >= 0 {
      NegativePlotsNothing(r);
      StartOnArc(r);
      OctantIsNear(r, 0, r, p);
    }
    MirroredPoints(x0, y0, octant, q);
    AxisPointsAre(x0, y0, r, q);
  }

  lemma {:induction false} EightEach(x0: int, y0: int, octant: seq<Point>)
    ensures |Mirrored(x0, y0, octant)| == 8 * |octant|
  {
    if octant != [] {
      EightEach(x0, y0, octant[1..]);
    }
  }

  lemma NegativePlotsNothing(r: int)
    ensures r < 0 ==> Octant(r, 0, r) == []
  {
  }

  /** The octant has one point a column, from column 1 on; rows fall by at most one; it ends at the diagonal. */
  lemma {:induction false} OctantIsConnected(r: int, x: int, y: int, i: nat)
    requires i < |Octant(r, x, y)|
    ensures Octant(r, x, y)[i].x == x + 1 + i
    ensures var above := if i == 0 then y else Octant(r, x, y)[i - 1].y;
            above - 1 <= Octant(r, x, y)[i].y <= above
    ensures i + 1 == |Octant(r, x, y)| <==> Octant(r, x, y)[i].x >= Octant(r, x, y)[i].y
    decreases i
  {
    hide Midpoint;
    var x', y' := x + 1, NextRow(r, x, y);
    assert Octant(r, x, y) == [Point(x', y')] + Octant(r, x', y');
    if i > 0 {
      OctantIsConnected(r, x', y', i - 1);
    } else {
      assert |Octant(r, x', y')| == 0 <==> x' >= y';
    }
  }
}
