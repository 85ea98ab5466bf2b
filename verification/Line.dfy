/** Bresenham's line: the error-driven loop against rounded division, and what it plots. */
module Line {
  import opened Machine
  import opened Graphics

  /** The major-axis form of a line: from (x0, y0), `dx` steps to the right, `dy` steps of +1 or -1. */
  datatype Run = Run(steep: bool, x0: int, y0: int, dx: nat, dy: nat, ystep: int)

  /** How far the minor axis has moved after `k` major steps: k * dy / dx, rounded. */
  function Minor(dx: nat, dy: nat, k: nat): nat {
    if dx == 0 then 0
    else
      var n: nat := k * dy + (dx - 1) / 2;
      Quotient(n, dx)
  }

  function PointAt(l: Run, k: nat): Point {
    var x, y := l.x0 + k, l.y0 + l.ystep * Minor(l.dx, l.dy, k);
    if l.steep then Point(y, x) else Point(x, y)
  }

  /** The first `n` pixels of a line. */
  function Pixels(l: Run, n: nat): (s: seq<Point>)
    ensures |s| == n
  {
    if n == 0 then [] else Pixels(l, n - 1) + [PointAt(l, n - 1)]
  }

  /** Both swaps of the source: the longer axis becomes the major one, traversed upwards. */
  function ToRun(x0: int, y0: int, x1: int, y1: int): Run {
    var steep := Abs(y1 - y0) > Abs(x1 - x0);
    var (ax, ay, bx, by1) := if steep then (y0, x0, y1, x1) else (x0, y0, x1, y1);
    var (px, py, qx, qy) := if ax > bx then (bx, by1, ax, ay) else (ax, ay, bx, by1);
    Run(steep, px, py, qx - px, Abs(qy - py), if py < qy then 1 else -1)
  }

  // ---------- arithmetic of the error term ----------

  /** The error term after `k` steps, `j` of them minor. */
  function ErrorTerm(dx: nat, dy: nat, k: nat): int {
    dx / 2 - k * dy + Minor(dx, dy, k) * dx
  }

  /** The error term stays in [0, dx), so the plotted row is within half a pixel of the true line. */
  lemma HalfPixel(dx: nat, dy: nat, k: nat)
    requires dx > 0
    ensures 0 <= ErrorTerm(dx, dy, k) < dx
    ensures 2 * Abs(k * dy - Minor(dx, dy, k) * dx) <= dx
  {
    DivBounds(k * dy + (dx - 1) / 2, dx);
  }

  /** It is the nearest row; of two equally near ones the one the line comes from. */
  lemma MinorRounds(dx: nat, dy: nat, k: nat, j: nat)
    requires dx > 0
    ensures j == Minor(dx, dy, k) <==> 0 < 2 * (k * dy - j * dx) + dx <= 2 * dx
  {
    var n := k * dy + (dx - 1) / 2;
    DivBounds(n, dx);
    if 0 < 2 * (k * dy - j * dx) + dx <= 2 * dx {
      QuotientIs(n, dx, j);
    }
  }

  /** One major step moves the minor axis by one exactly when the error term would go negative. */
  lemma MinorStep(dx: nat, dy: nat, k: nat)
    requires dx > 0 && dy <= dx
    ensures ErrorTerm(dx, dy, k) - dy < 0 ==>
              Minor(dx, dy, k + 1) == Minor(dx, dy, k) + 1 && ErrorTerm(dx, dy, k + 1) == ErrorTerm(dx, dy, k) - dy + dx
    ensures ErrorTerm(dx, dy, k) - dy >= 0 ==>
              Minor(dx, dy, k + 1) == Minor(dx, dy, k) && ErrorTerm(dx, dy, k + 1) == ErrorTerm(dx, dy, k) - dy
  {
    hide Quotient;
    var n, j := k * dy + (dx - 1) / 2, Minor(dx, dy, k);
    assert (dx - 1) / 2 + dx / 2 + 1 == dx;
    assert (k + 1) * dy == k * dy + dy;
    assert (j + 1) * dx == j * dx + dx;
    QuotientStep(n, dx, dy);
  }

  /** The minor axis ends where the line ends. */
  lemma MinorEnds(dx: nat, dy: nat)
    requires dy <= dx
    ensures Minor(dx, dy, 0) == 0 && Minor(dx, dy, dx) == dy
  {
    if dx > 0 {
      QuotientIs((dx - 1) / 2, dx, 0);
      QuotientIs(dx * dy + (dx - 1) / 2, dx, dy);
    }
  }

  // ---------- what a line plots ----------

  lemma {:induction false} PixelAt(l: Run, n: nat, k: nat)
    requires k < n
    ensures Pixels(l, n)[k] == PointAt(l, k)
  {
    if k < n - 1 {
      PixelAt(l, n - 1, k);
    }
  }

  /** The plot has one pixel per major step, starts and ends at the two given points. */
  lemma LineReachesBothEnds(x0: int, y0: int, x1: int, y1: int)
    ensures var l := ToRun(x0, y0, x1, y1);
            var s := Pixels(l, l.dx + 1);
            && |s| == Max(Abs(x1 - x0), Abs(y1 - y0)) + 1
            && {s[0], s[|s| - 1]} == {Point(x0, y0), Point(x1, y1)}
  {
    hide Minor, Pixels;
    var l := ToRun(x0, y0, x1, y1);
    PixelAt(l, l.dx + 1, 0);
    PixelAt(l, l.dx + 1, l.dx);
    MinorEnds(l.dx, l.dy);
  }

  /** Neighbouring pixels touch: one step along the major axis, at most one along the minor. */
  lemma LineIsConnected(x0: int, y0: int, x1: int, y1: int, k: nat)
    requires var l := ToRun(x0, y0, x1, y1); k < l.dx
    ensures var l := ToRun(x0, y0, x1, y1);
            var s := Pixels(l, l.dx + 1);
            Max(Abs(s[k + 1].x - s[k].x), Abs(s[k + 1].y - s[k].y)) == 1
  {
    var l := ToRun(x0, y0, x1, y1);
    PixelAt(l, l.dx + 1, k);
    PixelAt(l, l.dx + 1, k + 1);
    MinorStep(l.dx, l.dy, k);
  }

  /** No pixel is more than half a pixel off the ideal line through the two points. */
  lemma LineIsAccurate(x0: int, y0: int, x1: int, y1: int, p: Point)
    requires var l := ToRun(x0, y0, x1, y1); p in Pixels(l, l.dx + 1)
    ensures 2 * Abs((p.x - x0) * (y1 - y0) - (p.y - y0) * (x1 - x0)) <= Max(Abs(x1 - x0), Abs(y1 - y0))
  {
    var l := ToRun(x0, y0, x1, y1);
    var k :| 0 <= k < l.dx + 1 && Pixels(l, l.dx + 1)[k] == p;
    PixelAt(l, l.dx + 1, k);
    if l.dx > 0 {
      HalfPixel(l.dx, l.dy, k);
      OffLine(x0, y0, x1, y1, k);
    }
  }

  /**
    Every pixel of a line in numbers. Along the longer axis they go up one by one from the lesser end; the other
    coordinate has then moved by the nearest whole number of steps, of two equally near ones the smaller.
   */
  lemma LineInNumbers(x0: int, y0: int, x1: int, y1: int, k: nat)
    requires k <= Max(Abs(x1 - x0), Abs(y1 - y0))
    ensures var l := ToRun(x0, y0, x1, y1);
            var p, dx, dy := Pixels(l, l.dx + 1)[k], Abs(x1 - x0), Abs(y1 - y0);
            && (dy <= dx && x0 <= x1 ==> p.x == x0 + k && Rounded(p.y - y0, y1 - y0, dx, k))
            && (dy <= dx && x1 <= x0 ==> p.x == x1 + k && Rounded(p.y - y1, y0 - y1, dx, k))
            && (dx < dy && y0 <= y1 ==> p.y == y0 + k && Rounded(p.x - x0, x1 - x0, dy, k))
            && (dx < dy && y1 <= y0 ==> p.y == y1 + k && Rounded(p.x - x1, x0 - x1, dy, k))
  {
    var l := ToRun(x0, y0, x1, y1);
    RunStartsAtTheLesserEnd(x0, y0, x1, y1);
    PixelAt(l, l.dx + 1, k);
    RunRounds(l.dx, l.dy, l.ystep, k);
    hide Minor, Pixels, Rounded, ToRun;
  }

  lemma RunStartsAtTheLesserEnd(x0: int, y0: int, x1: int, y1: int)
    ensures var l, dx, dy := ToRun(x0, y0, x1, y1), Abs(x1 - x0), Abs(y1 - y0);
            && (l.steep <==> dx < dy) && l.dx == Max(dx, dy) && l.dy <= l.dx && (l.ystep == 1 || l.ystep == -1)
            && (dy <= dx && x0 <= x1 ==> l.x0 == x0 && l.y0 == y0 && l.ystep * l.dy == y1 - y0)
            && (dy <= dx && x1 <= x0 ==> l.x0 == x1 && l.y0 == y1 && l.ystep * l.dy == y0 - y1)
            && (dx < dy && y0 <= y1 ==> l.x0 == y0 && l.y0 == x0 && l.ystep * l.dy == x1 - x0)
            && (dx < dy && y1 <= y0 ==> l.x0 == y1 && l.y0 == x1 && l.ystep * l.dy == x0 - x1)
  {
  }

  lemma RunRounds(dx: nat, dy: nat, ystep: int, k: nat)
    requires k <= dx && dy <= dx && (ystep == 1 || ystep == -1)
    ensures Rounded(ystep * Minor(dx, dy, k), ystep * dy, dx, k)
  {
    if dx > 0 {
      MinorIsRounded(dx, dy, k);
    }
    hide Minor, Rounded;
  }

  /** `moved` has the sign of `total` and is k / steps of it, to the nearest whole, halves toward zero. */
  predicate Rounded(moved: int, total: int, steps: int, k: nat) {
    && (moved == 0 || (moved > 0 <==> total > 0))
    && (steps > 0 ==> 0 < 2 * (k * Abs(total) - Abs(moved) * steps) + steps <= 2 * steps)
    && (steps == 0 ==> moved == 0)
  }

  lemma MinorIsRounded(dx: nat, dy: nat, k: nat)
    requires dx > 0
    ensures var j: int, total: int := Minor(dx, dy, k), dy;
            Rounded(j, total, dx, k) && Rounded(-j, -total, dx, k)
  {
    MinorRounds(dx, dy, k, Minor(dx, dy, k));
    if dy == 0 {
      assert Minor(dx, 0, k) == 0 by {
        QuotientIs((dx - 1) / 2, dx, 0);
      }
    }
  }

  /** Cross products with the ideal line do not depend, up to sign, on the end they start from. */
  lemma CrossFromOtherEnd(px: int, py: int, ax: int, ay: int, bx: int, by1: int)
    ensures (px - ax) * (by1 - ay) - (py - ay) * (bx - ax) == -((px - bx) * (ay - by1) - (py - by1) * (ax - bx))
  {
  }

  lemma OffLine(x0: int, y0: int, x1: int, y1: int, k: nat)
    ensures var l := ToRun(x0, y0, x1, y1);
            var p := PointAt(l, k);
            Abs((p.x - x0) * (y1 - y0) - (p.y - y0) * (x1 - x0)) == Abs(k * l.dy - Minor(l.dx, l.dy, k) * l.dx)
  {
    var l := ToRun(x0, y0, x1, y1);
    var p := PointAt(l, k);
    var j := Minor(l.dx, l.dy, k);
    CrossFromOtherEnd(p.x, p.y, x0, y0, x1, y1);
    hide Minor;
    SignedStep(l.dx, l.dy, l.ystep, k, j);
  }

  lemma SignedStep(dx: nat, dy: nat, ystep: int, k: nat, j: nat)
    requires ystep == 1 || ystep == -1
    ensures Abs(k * (ystep * dy) - (ystep * j) * dx) == Abs(k * dy - j * dx)
  {
  }

  /** Exchanging the two ends plots the same pixels. */
  lemma LineIsSymmetric(x0: int, y0: int, x1: int, y1: int)
    ensures ToRun(x0, y0, x1, y1) == ToRun(x1, y1, x0, y0)
  {
  }

  lemma MinorBounded(dx: nat, dy: nat, k: nat)
    requires k <= dx
    ensures Minor(dx, dy, k) <= dy
  {
    if dx > 0 {
      ProductGrows(k, dx, dy);
      QuotientAtMost(k * dy + (dx - 1) / 2, dx, dy);
    }
  }

  /** One turn of the error recurrence. */
  method Advance(err: int16, y: int16, dx: int16, dy: int16, ystep: int16, ghost y0: int, ghost k: nat)
    returns (err': int16, y': int16)
    requires 0 <= dy <= dx && (ystep == 1 || ystep == -1) && -0x8000 < y < 0x7FFF
    requires k <= dx && y == y0 + ystep * Minor(dx, dy, k)
    requires (dx > 0 ==> err == ErrorTerm(dx, dy, k)) && (dx == 0 ==> err == 0)
    ensures dx > 0 ==> y' == y0 + ystep * Minor(dx, dy, k + 1) && err' == ErrorTerm(dx, dy, k + 1)
  {
    if dx > 0 {
      HalfPixel(dx, dy, k);
      MinorStep(dx, dy, k);
    }
    hide Minor, ErrorTerm;
    err', y' := err - dy, y;
    if err' < 0 {
      y' := y' + ystep;
      err' := err' + dx;
    }
  }

  /** The plotting loop, once both swaps are done. */
  method PlotRun(canvas: Canvas, steep: bool, x0: int16, y0: int16, x1: int16, dy: int16, ystep: int16)
    requires 0 <= dy <= x1 - x0 < 0x8000 && (ystep == 1 || ystep == -1) && x1 < 0x7FFF
    requires -0x8000 < y0 < 0x7FFF && -0x8000 < y0 + ystep * dy < 0x7FFF
    modifies canvas`points
    ensures canvas.points == old(canvas.points) + Pixels(Run(steep, x0, y0, x1 - x0, dy, ystep), x1 - x0 + 1)
  {
    hide Minor, ErrorTerm;
    var dx: int16 := x1 - x0;
    ghost var l := Run(steep, x0, y0, dx, dy, ystep);
    var x, y, err: int16 := x0, y0, dx / 2;
    ghost var k: nat := 0;
    MinorEnds(dx, dy);
    ErrorStarts(dx, dy);
    while x <= x1
      invariant k <= dx + 1 && x == x0 + k
      invariant k <= dx ==> y == y0 + ystep * Minor(dx, dy, k)
      invariant k <= dx ==> (dx > 0 ==> err == ErrorTerm(dx, dy, k)) && (dx == 0 ==> err == 0)
      invariant canvas.points == old(canvas.points) + Pixels(l, k)
    {
      MinorBounded(dx, dy, k);
      if steep {
        canvas.DrawPixel(y, x);
      } else {
        canvas.DrawPixel(x, y);
      }
      err, y := Advance(err, y, dx, dy, ystep, y0, k);
      x := x + 1;
      k := k + 1;
    }
  }

  lemma ErrorStarts(dx: nat, dy: nat)
    requires dy <= dx
    ensures ErrorTerm(dx, dy, 0) == dx / 2
  {
    MinorEnds(dx, dy);
  }

  /** Plots the rounded line by additions alone, every variable within 16 bits. */
  method DrawLine(canvas: Canvas, x0: int16, y0: int16, x1: int16, y1: int16)
    requires Int16(x1 - x0) && Int16(x0 - x1) && Int16(y1 - y0) && Int16(y0 - y1)
    requires -0x8000 < Min(Min(x0, x1), Min(y0, y1)) && Max(Max(x0, x1), Max(y0, y1)) < 0x7FFF
    modifies canvas`points
    ensures var l := ToRun(x0, y0, x1, y1);
            canvas.points == old(canvas.points) + Pixels(l, l.dx + 1)
  {
    var ax: int16, ay: int16, bx: int16, by1: int16 := x0, y0, x1, y1;
    var steep := Abs(by1 - ay) > Abs(bx - ax);
    if steep {
      ax, ay := ay, ax;
      bx, by1 := by1, bx;
    }
    if ax > bx {
      ax, bx := bx, ax;
      ay, by1 := by1, ay;
    }
    var dy: int16 := Abs(by1 - ay);
    var ystep: int16 := if ay < by1 then 1 else -1;
    PlotRun(canvas, steep, ax, ay, bx, dy, ystep);
  }
}
