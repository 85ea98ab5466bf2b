/** Scanline triangle filling: incremental edge sums against the longhand crossing of each row. */
module Triangle {
  import opened Machine
  import opened Graphics

  datatype Tri = Tri(a: Point, b: Point, c: Point)

  /** The three conditional swaps: vertices by ascending row. */
  function SortByRow(t: Tri): Tri {
    var t1 := if t.a.y > t.b.y then Tri(t.b, t.a, t.c) else t;
    var t2 := if t1.b.y > t1.c.y then Tri(t1.a, t1.c, t1.b) else t1;
    if t2.a.y > t2.b.y then Tri(t2.b, t2.a, t2.c) else t2
  }

  lemma SortSorts(t: Tri)
    ensures var s := SortByRow(t);
            && s.a.y <= s.b.y <= s.c.y
            && multiset{s.a, s.b, s.c} == multiset{t.a, t.b, t.c}
  {
  }

  // ---------- longhand crossings ----------

  /** Where the edge from p to q crosses row `y`, by C's truncating division. */
  function Crossing(p: Point, q: Point, y: int): int
    requires p.y != q.y
  {
    p.x + CDiv((q.x - p.x) * (y - p.y), q.y - p.y)
  }

  /** The short side at row `y`: edge a-b above vertex b (or down to it, if the bottom is flat), edge b-c below. */
  function ShortSide(t: Tri, y: int): int
    requires t.a.y <= y <= t.c.y && t.a.y <= t.b.y <= t.c.y && t.a.y < t.c.y
  {
    if y < t.b.y || t.b.y == t.c.y then Crossing(t.a, t.b, y) else Crossing(t.b, t.c, y)
  }

  function LongSide(t: Tri, y: int): int
    requires t.a.y < t.c.y
  {
    Crossing(t.a, t.c, y)
  }

  function Between(u: int, v: int, y: int): Span {
    Span(Min(u, v), y, Max(u, v) - Min(u, v) + 1)
  }

  predicate Sorted(t: Tri) {
    t.a.y <= t.b.y <= t.c.y
  }

  function RowSpan(t: Tri, y: int): Span
    requires Sorted(t) && t.a.y <= y <= t.c.y && t.a.y < t.c.y
  {
    Between(ShortSide(t, y), LongSide(t, y), y)
  }

  /** The spans of the first `n` rows. */
  function Rows(t: Tri, n: nat): (s: seq<Span>)
    requires Sorted(t) && t.a.y < t.c.y && n <= t.c.y - t.a.y + 1
    ensures |s| == n && forall i :: 0 <= i < n ==> s[i] == RowSpan(t, t.a.y + i)
  {
    if n == 0 then [] else Rows(t, n - 1) + [RowSpan(t, t.a.y + n - 1)]
  }

  function FlatSpan(t: Tri): Span {
    Between(Min(t.a.x, Min(t.b.x, t.c.x)), Max(t.a.x, Max(t.b.x, t.c.x)), t.a.y)
  }

  /** All spans of a triangle with sorted vertices. */
  function Spans(t: Tri): seq<Span>
    requires Sorted(t)
  {
    if t.a.y == t.c.y then [FlatSpan(t)] else Rows(t, t.c.y - t.a.y + 1)
  }

  // ---------- what they cover ----------

  /** Truncated interpolation stays between the ends, reaches both, and is less than one unit off. */
  lemma Interpolates(dx: int, k: int, d: int)
    requires 0 <= k <= d && 0 < d
    ensures Min(0, dx) <= CDiv(dx * k, d) <= Max(0, dx)
    ensures k == 0 ==> CDiv(dx * k, d) == 0
    ensures k == d ==> CDiv(dx * k, d) == dx
    ensures Abs(CDiv(dx * k, d) * d - dx * k) < d
  {
    var n: nat, p: int := Abs(dx), dx * k;
    RowQuotient(n, k, d);
    assert dx < 0 ==> -p == n * k;
    Truncated(p, n * k, d);
    hide CDiv;
    if dx < 0 {
      var q := (n * k) / d;
      assert (-q) * d == -(q * d);
    }
  }

  /** Truncation toward zero divides the absolute value. */
  lemma Truncated(p: int, a: nat, d: nat)
    requires d > 0 && (p == a || p + a == 0)
    ensures CDiv(p, d) == if p == a then a / d else -(a / d)
  {
  }

  lemma RowQuotient(n: nat, k: nat, d: nat)
    requires k <= d && 0 < d
    ensures 0 <= n * k && 0 <= (n * k) / d <= n
    ensures k == d ==> (n * k) / d == n
    ensures 0 <= n * k - ((n * k) / d) * d < d
  {
    ProductGrows(k, d, n);
    DivBounds(n * k, d);
    if k == d {
      QuotientIs(n * k, d, n);
    } else if (n * k) / d > n {
      OneMore(n, (n * k) / d, d);
    }
  }

  lemma CrossingWithinEdge(p: Point, q: Point, y: int)
    requires p.y <= y <= q.y && p.y < q.y
    ensures Min(p.x, q.x) <= Crossing(p, q, y) <= Max(p.x, q.x)
    ensures y == p.y ==> Crossing(p, q, y) == p.x
    ensures y == q.y ==> Crossing(p, q, y) == q.x
  {
    Interpolates(q.x - p.x, y - p.y, q.y - p.y);
  }

  predicate Covers(s: Span, p: Point) {
    s.y == p.y && s.x <= p.x < s.x + s.w
  }

  predicate InBox(s: Span, t: Tri) {
    Min(t.a.x, Min(t.b.x, t.c.x)) <= s.x && s.x + s.w - 1 <= Max(t.a.x, Max(t.b.x, t.c.x))
  }

  /** One non-empty span per row, from the top vertex to the bottom one, none outside the bounding box. */
  lemma OneSpanPerRow(t: Tri, i: nat)
    requires Sorted(t) && i < |Spans(t)|
    ensures |Spans(t)| == t.c.y - t.a.y + 1
    ensures Spans(t)[i].y == t.a.y + i && Spans(t)[i].w >= 1 && InBox(Spans(t)[i], t)
  {
    if t.a.y < t.c.y {
      SidesWithinBox(t, t.a.y + i);
    }
  }

  lemma SidesWithinBox(t: Tri, y: int)
    requires Sorted(t) && t.a.y < t.c.y && t.a.y <= y <= t.c.y
    ensures InBox(RowSpan(t, y), t)
  {
    CrossingWithinEdge(t.a, t.c, y);
    if y < t.b.y || t.b.y == t.c.y {
      CrossingWithinEdge(t.a, t.b, y);
    } else {
      CrossingWithinEdge(t.b, t.c, y);
    }
  }

  /** Every vertex is inside the span of its row. */
  lemma VerticesCovered(t: Tri, p: Point)
    requires Sorted(t) && p in {t.a, t.b, t.c}
    ensures exists i :: 0 <= i < |Spans(t)| && Covers(Spans(t)[i], p)
  {
    hide Crossing;
    if t.a.y < t.c.y {
      CrossingWithinEdge(t.a, t.c, p.y);
      if p.y < t.b.y || t.b.y == t.c.y {
        CrossingWithinEdge(t.a, t.b, p.y);
      } else {
        CrossingWithinEdge(t.b, t.c, p.y);
      }
      assert Covers(Spans(t)[p.y - t.a.y], p);
    } else {
      assert Covers(Spans(t)[0], p);
    }
  }

  /** Column `u` is where the line from `p` down to `q` crosses row `y`, rounded toward the column of `p`. */
  predicate OnEdge(u: int, p: Point, q: Point, y: int) {
    var exact, plotted := (q.x - p.x) * (y - p.y), (u - p.x) * (q.y - p.y);
    Abs(plotted - exact) < q.y - p.y && Abs(plotted) <= Abs(exact)
  }

  /** The span joins its row's crossings of two edges, in either order. */
  predicate Joins(s: Span, p: Point, q: Point, r: Point, z: Point) {
    var left, right := s.x, s.x + s.w - 1;
    || (OnEdge(left, p, q, s.y) && OnEdge(right, r, z, s.y))
    || (OnEdge(right, p, q, s.y) && OnEdge(left, r, z, s.y))
  }

  lemma CrossingIsOnEdge(p: Point, q: Point, y: int)
    requires p.y <= y <= q.y && p.y < q.y
    ensures OnEdge(Crossing(p, q, y), p, q, y)
  {
    Interpolates(q.x - p.x, y - p.y, q.y - p.y);
    TowardZero(q.x - p.x, y - p.y, q.y - p.y);
    hide CDiv;
  }

  /** Truncation never gets further from zero than the exact quotient. */
  lemma TowardZero(dx: int, k: int, d: int)
    requires 0 <= k <= d && 0 < d
    ensures Abs(CDiv(dx * k, d) * d) <= Abs(dx * k)
  {
    var n: nat, p: int := Abs(dx), dx * k;
    RowQuotient(n, k, d);
    assert dx < 0 ==> -p == n * k;
    Truncated(p, n * k, d);
    hide CDiv;
    var q := (n * k) / d;
    assert (-q) * d == -(q * d);
  }

  /** There is only one such column. */
  lemma OneColumnOnEdge(u: int, v: int, p: Point, q: Point, y: int)
    requires OnEdge(u, p, q, y) && OnEdge(v, p, q, y)
    ensures u == v
  {
    var d := q.y - p.y;
    if u < v {
      OneColumnApart(u - p.x, v - p.x, d);
    } else if v < u {
      OneColumnApart(v - p.x, u - p.x, d);
    }
  }

  lemma OneColumnApart(u: int, v: int, d: int)
    requires u < v && 0 < d
    ensures u * d + d <= v * d && (0 <= u ==> 0 <= u * d) && (v <= 0 ==> v * d <= 0)
    ensures (u < 0 ==> u * d <= -d) && (0 < v ==> d <= v * d)
  {
    OneMore(0, v - u, d);
    assert v * d == u * d + (v - u) * d;
    if u < 0 {
      OneMore(0, -u, d);
    } else {
      ProductGrows(0, u, d);
    }
    if 0 < v {
      OneMore(0, v, d);
    } else {
      ProductGrows(0, -v, d);
    }
  }

  /**
    Each span joins the crossing of the long edge with that of the short edge of its row: from the top vertex
    to the middle one above it, and on the last row of a flat bottom; else from the middle vertex to the bottom one.
   */
  lemma SpansFollowTheEdges(t: Tri, i: nat)
    requires Sorted(t) && t.a.y < t.c.y && i <= t.c.y - t.a.y
    ensures |Spans(t)| == t.c.y - t.a.y + 1 && Spans(t)[i].y == t.a.y + i
    ensures t.a.y + i < t.b.y || t.b.y == t.c.y ==> Joins(Spans(t)[i], t.a, t.c, t.a, t.b)
    ensures t.b.y <= t.a.y + i && t.b.y < t.c.y ==> Joins(Spans(t)[i], t.a, t.c, t.b, t.c)
  {
    var y := t.a.y + i;
    CrossingIsOnEdge(t.a, t.c, y);
    if y < t.b.y || t.b.y == t.c.y {
      CrossingIsOnEdge(t.a, t.b, y);
    } else {
      CrossingIsOnEdge(t.b, t.c, y);
    }
    hide Crossing, OnEdge;
  }

  // ---------- the incremental loops ----------

  /** The row sums of the source start from a 16-bit product; it must not wrap where it is used. */
  predicate ProductFits(t: Tri) {
    t.b.y < t.c.y ==> Int16((t.c.x - t.a.x) * (t.b.y - t.a.y))
  }

  predicate VerticesFit(t: Tri) {
    && Int16(t.a.x) && Int16(t.b.x) && Int16(t.c.x) && Int16(t.a.y) && Int16(t.b.y) && Int16(t.c.y)
    && Int16(t.b.x - t.a.x) && Int16(t.c.x - t.a.x) && Int16(t.c.x - t.b.x)
    && Int16(t.c.y - t.a.y) && t.c.y < 0x7FFF && -0x8000 < t.b.y
    && Int16(Max(t.a.x, Max(t.b.x, t.c.x)) - Min(t.a.x, Min(t.b.x, t.c.x)) + 1)
  }

  method Scanline(canvas: Canvas, u: int16, v: int16, y: int16)
    requires Int16(Max(u, v) - Min(u, v) + 1)
    modifies canvas`spans
    ensures canvas.spans == old(canvas.spans) + [Between(u, v, y)]
  {
    var a: int16, b: int16 := u, v;
    if a > b {
      a, b := b, a;
    }
    canvas.DrawFastHLine(a, y, b - a + 1);
  }

  /** The all-on-one-row case. */
  method FillFlat(canvas: Canvas, t: Tri)
    requires VerticesFit(t)
    modifies canvas`spans
    ensures canvas.spans == old(canvas.spans) + [FlatSpan(t)]
  {
    var a: int16, b: int16 := t.a.x, t.a.x;
    if t.b.x < a {
      a := t.b.x;
    } else if t.b.x > b {
      b := t.b.x;
    }
    if t.c.x < a {
      a := t.c.x;
    } else if t.c.x > b {
      b := t.c.x;
    }
    canvas.DrawFastHLine(a, t.a.y, b - a + 1);
  }

  /** Fills a triangle with one span a row, by running sums that equal the longhand products. */
  method FillTriangle(canvas: Canvas, unsorted: Tri)
    requires VerticesFit(SortByRow(unsorted)) && ProductFits(SortByRow(unsorted))
    modifies canvas`spans
    ensures Sorted(SortByRow(unsorted)) && canvas.spans == old(canvas.spans) + Spans(SortByRow(unsorted))
  {
    SortSorts(unsorted);
    var t := SortByRow(unsorted);
    hide SortByRow, VerticesFit, ProductFits, Rows, FlatSpan;
    if t.a.y == t.c.y {
      FillFlat(canvas, t);
      return;
    }
    var y := FillUpper(canvas, t, canvas.spans);
    FillLower(canvas, t, y, old(canvas.spans));
  }

  /** One row above the middle vertex, from the running sums. */
  method UpperRow(canvas: Canvas, t: Tri, y: int16, sa: int, sb: int)
    requires Sorted(t) && t.a.y < t.c.y && VerticesFit(t) && t.a.y <= y <= t.b.y && (y < t.b.y || t.b.y == t.c.y)
    requires sa == (t.b.x - t.a.x) * (y - t.a.y) && sb == (t.c.x - t.a.x) * (y - t.a.y)
    modifies canvas`spans
    ensures canvas.spans == old(canvas.spans) + [RowSpan(t, y)]
  {
    SidesFit(t, y);
    hide VerticesFit, CDiv;
    var a: int16, b: int16 := t.a.x + CDiv(sa, t.b.y - t.a.y), t.a.x + CDiv(sb, t.c.y - t.a.y);
    Scanline(canvas, a, b, y);
  }

  /** Where the two edges below the middle vertex cross a row. */
  lemma LowerSides(t: Tri, y: int)
    requires Sorted(t) && t.b.y <= y <= t.c.y && t.b.y < t.c.y
    ensures ShortSide(t, y) == t.b.x + CDiv((t.c.x - t.b.x) * (y - t.b.y), t.c.y - t.b.y)
    ensures LongSide(t, y) == t.a.x + CDiv((t.c.x - t.a.x) * (y - t.a.y), t.c.y - t.a.y)
  {
    hide CDiv;
  }

  /** One row from the middle vertex on. */
  method LowerRow(canvas: Canvas, t: Tri, y: int16, sa: int, sb: int)
    requires Sorted(t) && t.a.y < t.c.y && VerticesFit(t) && t.b.y <= y <= t.c.y && t.b.y < t.c.y
    requires sa == (t.c.x - t.b.x) * (y - t.b.y) && sb == (t.c.x - t.a.x) * (y - t.a.y)
    modifies canvas`spans
    ensures canvas.spans == old(canvas.spans) + [RowSpan(t, y)]
  {
    SidesFit(t, y);
    LowerSides(t, y);
    hide VerticesFit, CDiv, ShortSide, LongSide;
    var a: int16, b: int16 := t.b.x + CDiv(sa, t.c.y - t.b.y), t.a.x + CDiv(sb, t.c.y - t.a.y);
    Scanline(canvas, a, b, y);
  }

  /** From the top vertex down to the middle one, whose row is included only if the bottom is flat. */
  method FillUpper(canvas: Canvas, t: Tri, ghost before: seq<Span>) returns (y: int16)
    requires before == canvas.spans && Sorted(t) && t.a.y < t.c.y && VerticesFit(t)
    modifies canvas`spans
    ensures y == if t.b.y == t.c.y then t.b.y + 1 else t.b.y
    ensures canvas.spans == before + Rows(t, y - t.a.y)
  {
    RowFits(t);
    hide VerticesFit, SortByRow;
    hide RowSpan;
    var dx01, dx02 := t.b.x - t.a.x, t.c.x - t.a.x;
    var last := if t.b.y == t.c.y then t.b.y else t.b.y - 1;
    var sa, sb := 0, 0;
    y := t.a.y;
    while y <= last
      invariant t.a.y <= y <= last + 1
      invariant sa == dx01 * (y - t.a.y) && sb == dx02 * (y - t.a.y)
      invariant canvas.spans == before + Rows(t, y - t.a.y)
    {
      UpperRow(canvas, t, y, sa, sb);
      sa, sb := Advance(sa, sb, dx01, dx02, y - t.a.y, y - t.a.y);
      y := y + 1;
    }
  }

  lemma SidesFit(t: Tri, y: int)
    requires Sorted(t) && t.a.y < t.c.y && t.a.y <= y <= t.c.y && VerticesFit(t)
    ensures Int16(ShortSide(t, y)) && Int16(LongSide(t, y)) && Int16(RowSpan(t, y).w)
  {
    SidesWithinBox(t, y);
  }

  /** Both sums move on by one row. */
  method Advance(sa: int, sb: int, dxa: int, dxb: int, ghost i: int, ghost j: int) returns (sa': int, sb': int)
    requires sa == dxa * i && sb == dxb * j
    ensures sa' == dxa * (i + 1) && sb' == dxb * (j + 1)
  {
    sa', sb' := sa + dxa, sb + dxb;
  }

  function Wrap16(v: int): int16 {
    (v + 0x8000) % 0x1_0000 - 0x8000
  }

  /** The 16-bit products the lower loop starts from are exact wherever that loop runs. */
  lemma StartSums(t: Tri)
    requires ProductFits(t)
    ensures t.b.y < t.c.y ==>
              && Wrap16((t.c.x - t.b.x) * (t.b.y - t.b.y)) == (t.c.x - t.b.x) * (t.b.y - t.b.y)
              && Wrap16((t.c.x - t.a.x) * (t.b.y - t.a.y)) == (t.c.x - t.a.x) * (t.b.y - t.a.y)
  {
    assert (t.c.x - t.b.x) * 0 == 0;
  }

  /** The rows left, to the bottom vertex. */
  method FillLower(canvas: Canvas, t: Tri, y0: int16, ghost before: seq<Span>)
    requires Sorted(t) && t.a.y < t.c.y && VerticesFit(t) && ProductFits(t)
    requires y0 == if t.b.y == t.c.y then t.b.y + 1 else t.b.y
    requires canvas.spans == before + Rows(t, y0 - t.a.y)
    modifies canvas`spans
    ensures canvas.spans == before + Rows(t, t.c.y - t.a.y + 1)
  {
    hide VerticesFit, SortByRow, RowSpan, Wrap16, ProductFits;
    var dx12, dx02 := t.c.x - t.b.x, t.c.x - t.a.x;
    StartSums(t);
    var y: int16 := y0;
    var sa: int, sb: int := Wrap16(dx12 * (y - t.b.y)), Wrap16(dx02 * (y - t.a.y));
    while y <= t.c.y
      invariant y0 <= y <= t.c.y + 1
      invariant y <= t.c.y ==> sa == dx12 * (y - t.b.y) && sb == dx02 * (y - t.a.y)
      invariant canvas.spans == before + Rows(t, y - t.a.y)
    {
      LowerRow(canvas, t, y, sa, sb);
      sa, sb := Advance(sa, sb, dx12, dx02, y - t.b.y, y - t.a.y);
      RowFits(t);
      y := y + 1;
    }
  }

  lemma RowFits(t: Tri)
    requires VerticesFit(t)
    ensures t.c.y < 0x7FFF
  {
  }
}
