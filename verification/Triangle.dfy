// The filled triangle (toolkit/src/view/raster.cpp): a sign test on every pixel of
// the bounding box, which colours exactly the closed triangle.
module Triangle {
  import opened Ints
  import opened Canvas

  function Edge(a: Pixel, b: Pixel, p: Pixel): int {
    (b.0 - a.0) * (p.1 - a.1) - (b.1 - a.1) * (p.0 - a.0)
  }

  datatype Triangle = Triangle(a: Pixel, b: Pixel, c: Pixel) {
    function W0(p: Pixel): int { Edge(b, c, p) }
    function W1(p: Pixel): int { Edge(c, a, p) }
    function W2(p: Pixel): int { Edge(a, b, p) }

    // Twice the signed area.
    function Area(): int { Edge(a, b, c) }

    predicate Covers(p: Pixel) {
      (W0(p) >= 0 && W1(p) >= 0 && W2(p) >= 0) || (W0(p) <= 0 && W1(p) <= 0 && W2(p) <= 0)
    }

    predicate InBounds(p: Pixel) {
      Between(p.0, a.0, b.0, c.0) && Between(p.1, a.1, b.1, c.1)
    }

    // A mean of the corners with these weights.
    predicate MeanIs(p: Pixel, l: int, m: int, n: int) {
      && l >= 0 && m >= 0 && n >= 0 && l + m + n > 0
      && l * a.0 + m * b.0 + n * c.0 == (l + m + n) * p.0
      && l * a.1 + m * b.1 + n * c.1 == (l + m + n) * p.1
    }

    // The closed triangle: the weighted means of the corners.
    ghost predicate Inside(p: Pixel) { exists l, m, n :: MeanIs(p, l, m, n) }
  }

  predicate Between(v: int, x: int, y: int, z: int) { Min(Min(x, y), z) <= v <= Max(Max(x, y), z) }

  lemma WeightsSum(t: Triangle, p: Pixel)
    ensures t.W0(p) + t.W1(p) + t.W2(p) == t.Area()
  {}

  // The edge functions weigh the corners to the pixel.
  lemma WeightsBalance(t: Triangle, p: Pixel)
    ensures t.W0(p) * t.a.0 + t.W1(p) * t.b.0 + t.W2(p) * t.c.0 == t.Area() * p.0
    ensures t.W0(p) * t.a.1 + t.W1(p) * t.b.1 + t.W2(p) * t.c.1 == t.Area() * p.1
  {}

  // A weighted mean, seen from u and stretched by d.
  lemma MeanStretched(l: int, m: int, n: int, x: int, y: int, z: int, v: int, u: int, d: int)
    requires l * x + m * y + n * z == (l + m + n) * v
    ensures (l + m + n) * (d * (v - u)) == l * (d * (x - u)) + m * (d * (y - u)) + n * (d * (z - u))
  {
    var s, i, j, k, w := l + m + n, x - u, y - u, z - u, v - u;
    assert s * w == l * i + m * j + n * k by {
      MulMinus(s, v, u);
      MulMinus(l, x, u);
      MulMinus(m, y, u);
      MulMinus(n, z, u);
      Distribute(l, m, u);
      Distribute(l + m, n, u);
    }
    Swap(s, d, w);
    Swap(l, d, i);
    Swap(m, d, j);
    Swap(n, d, k);
    Distribute(l * i, m * j, d);
    Distribute(l * i + m * j, n * k, d);
  }

  lemma MulMinus(a: int, b: int, c: int)
    ensures a * (b - c) == a * b - a * c
  {}

  lemma Swap(a: int, d: int, b: int)
    ensures a * (d * b) == (a * b) * d
  {}

  // An edge function of a weighted mean is the weighted sum of its values.
  lemma EdgeOfMean(u: Pixel, v: Pixel, t: Triangle, p: Pixel, l: int, m: int, n: int)
    requires t.MeanIs(p, l, m, n)
    ensures (l + m + n) * Edge(u, v, p) == l * Edge(u, v, t.a) + m * Edge(u, v, t.b) + n * Edge(u, v, t.c)
  {
    var dx, dy := v.0 - u.0, v.1 - u.1;
    MeanStretched(l, m, n, t.a.1, t.b.1, t.c.1, p.1, u.1, dx);
    MeanStretched(l, m, n, t.a.0, t.b.0, t.c.0, p.0, u.0, dy);
    MulMinus(l + m + n, dx * (p.1 - u.1), dy * (p.0 - u.0));
    MulMinus(l, dx * (t.a.1 - u.1), dy * (t.a.0 - u.0));
    MulMinus(m, dx * (t.b.1 - u.1), dy * (t.b.0 - u.0));
    MulMinus(n, dx * (t.c.1 - u.1), dy * (t.c.0 - u.0));
  }

  lemma SameSign(s: int, w: int, l: int, area: int)
    requires s > 0 && l >= 0 && s * w == l * area
    ensures (area >= 0 ==> w >= 0) && (area <= 0 ==> w <= 0)
  {
    if area >= 0 {
      ProductMonotone(0, l, area);
      if w < 0 { ProductMonotone(w, -1, s); }
    }
    if area <= 0 {
      ProductMonotone(0, l, -area);
      if w > 0 { ProductMonotone(1, w, s); }
    }
  }

  lemma InsideIsCovered(t: Triangle, p: Pixel)
    requires t.Inside(p)
    ensures t.Covers(p)
  {
    var l, m, n :| t.MeanIs(p, l, m, n);
    EdgeOfMean(t.b, t.c, t, p, l, m, n);
    EdgeOfMean(t.c, t.a, t, p, l, m, n);
    EdgeOfMean(t.a, t.b, t, p, l, m, n);
    CornerWeights(t);
    SameSign(l + m + n, t.W0(p), l, t.Area());
    SameSign(l + m + n, t.W1(p), m, t.Area());
    SameSign(l + m + n, t.W2(p), n, t.Area());
  }

  // Each corner has all the weight of its own.
  lemma CornerWeights(t: Triangle)
    ensures t.W0(t.a) == t.W1(t.b) == t.W2(t.c) == t.Area()
    ensures t.W0(t.b) == 0 && t.W0(t.c) == 0 && t.W1(t.a) == 0 && t.W1(t.c) == 0 && t.W2(t.a) == 0 && t.W2(t.b) == 0
  {}

  lemma CoveredIsInside(t: Triangle, p: Pixel)
    requires t.Area() != 0 && t.Covers(p)
    ensures t.Inside(p)
  {
    WeightsSum(t, p);
    WeightsBalance(t, p);
    var l, m, n := t.W0(p), t.W1(p), t.W2(p);
    if l + m + n > 0 {
      assert t.MeanIs(p, l, m, n);
    } else {
      Negated(l, m, n, t.a.0, t.b.0, t.c.0, p.0);
      Negated(l, m, n, t.a.1, t.b.1, t.c.1, p.1);
      assert t.MeanIs(p, -l, -m, -n);
    }
  }

  lemma Negated(l: int, m: int, n: int, x: int, y: int, z: int, v: int)
    requires l * x + m * y + n * z == (l + m + n) * v
    ensures (-l) * x + (-m) * y + (-n) * z == (-l + -m + -n) * v
  {}

  // A weighted mean is at least a lower bound of its parts.
  lemma MeanAtLeast(l: int, m: int, n: int, x: int, y: int, z: int, v: int, lo: int)
    requires l >= 0 && m >= 0 && n >= 0 && l + m + n > 0 && l * x + m * y + n * z == (l + m + n) * v
    requires lo <= x && lo <= y && lo <= z
    ensures lo <= v
  {
    ProductMonotone(lo, x, l);
    ProductMonotone(lo, y, m);
    ProductMonotone(lo, z, n);
    assert lo * l + lo * m + lo * n == lo * (l + m + n);
    if v < lo { ProductMonotone(v + 1, lo, l + m + n); }
  }

  lemma MeanIsBetween(l: int, m: int, n: int, x: int, y: int, z: int, v: int)
    requires l >= 0 && m >= 0 && n >= 0 && l + m + n > 0 && l * x + m * y + n * z == (l + m + n) * v
    ensures Between(v, x, y, z)
  {
    MeanAtLeast(l, m, n, x, y, z, v, Min(Min(x, y), z));
    assert l * -x + m * -y + n * -z == (l + m + n) * -v;
    MeanAtLeast(l, m, n, -x, -y, -z, -v, -Max(Max(x, y), z));
  }

  // A pixel between two corners, at these distances from them, is inside.
  lemma BetweenCorners(t: Triangle, p: Pixel, u: Pixel, v: Pixel, x: int, y: int)
    requires u in [t.a, t.b, t.c] && v in [t.a, t.b, t.c] && u != v
    requires x >= 0 && y >= 0 && x + y > 0
    requires x * u.0 + y * v.0 == (x + y) * p.0 && x * u.1 + y * v.1 == (x + y) * p.1
    ensures t.Inside(p)
  {
    if u == t.a && v == t.b { assert t.MeanIs(p, x, y, 0); }
    else if u == t.a && v == t.c { assert t.MeanIs(p, x, 0, y); }
    else if u == t.b && v == t.a { assert t.MeanIs(p, y, x, 0); }
    else if u == t.b && v == t.c { assert t.MeanIs(p, 0, x, y); }
    else if u == t.c && v == t.a { assert t.MeanIs(p, y, 0, x); }
    else { assert t.MeanIs(p, 0, y, x); }
  }

  // The three edges of corners on one line, taken either way.
  lemma FlatEdges(t: Triangle, p: Pixel, u: Pixel, v: Pixel)
    requires t.Area() == 0 && t.Covers(p) && u in [t.a, t.b, t.c] && v in [t.a, t.b, t.c]
    ensures Edge(u, v, p) == 0
  {
    WeightsSum(t, p);
    EdgeTurned(t.a, t.b, p);
    EdgeTurned(t.b, t.c, p);
    EdgeTurned(t.c, t.a, p);
  }

  lemma EdgeTurned(u: Pixel, v: Pixel, p: Pixel)
    ensures Edge(u, v, p) == -Edge(v, u, p) && Edge(u, u, p) == 0
  {}

  // On the line through u and v, the distances along one axis weigh the other.
  lemma OnLine(u0: int, u1: int, v0: int, v1: int, p0: int, p1: int)
    requires (v0 - u0) * (p1 - u1) == (v1 - u1) * (p0 - u0)
    ensures (v0 - p0) * u0 + (p0 - u0) * v0 == (v0 - u0) * p0
    ensures (v0 - p0) * u1 + (p0 - u0) * v1 == (v0 - u0) * p1
  {}

  // The corners first and last along the rows, or down the columns.
  function First(t: Triangle, rows: bool): (r: Pixel)
    ensures r in [t.a, t.b, t.c]
    ensures forall c :: c in [t.a, t.b, t.c] ==> Along(r, rows) <= Along(c, rows)
  {
    var r := if Along(t.b, rows) < Along(t.a, rows) then t.b else t.a;
    if Along(t.c, rows) < Along(r, rows) then t.c else r
  }

  function Final(t: Triangle, rows: bool): (r: Pixel)
    ensures r in [t.a, t.b, t.c]
    ensures forall c :: c in [t.a, t.b, t.c] ==> Along(r, rows) >= Along(c, rows)
  {
    var r := if Along(t.b, rows) > Along(t.a, rows) then t.b else t.a;
    if Along(t.c, rows) > Along(r, rows) then t.c else r
  }

  function Along(p: Pixel, rows: bool): int { if rows then p.0 else p.1 }

  // On the line of two corners and between them along one axis.
  lemma OnChord(t: Triangle, p: Pixel, u: Pixel, v: Pixel, rows: bool)
    requires u in [t.a, t.b, t.c] && v in [t.a, t.b, t.c] && Edge(u, v, p) == 0
    requires Along(u, rows) <= Along(p, rows) <= Along(v, rows) && Along(u, rows) < Along(v, rows)
    ensures t.Inside(p)
  {
    hide Triangle.Inside;
    if rows {
      OnLine(u.0, u.1, v.0, v.1, p.0, p.1);
      BetweenCorners(t, p, u, v, v.0 - p.0, p.0 - u.0);
    } else {
      OnLine(u.1, u.0, v.1, v.0, p.1, p.0);
      BetweenCorners(t, p, u, v, v.1 - p.1, p.1 - u.1);
    }
  }

  lemma FlatIsInside(t: Triangle, p: Pixel)
    requires t.Area() == 0 && t.InBounds(p) && t.Covers(p)
    ensures t.Inside(p)
  {
    hide Edge, Triangle.Area, Triangle.Covers, Triangle.Inside;
    var u, v := First(t, true), Final(t, true);
    var d, e := First(t, false), Final(t, false);
    assert forall c :: c in [t.a, t.b, t.c] ==> u.0 <= c.0 <= v.0 && d.1 <= c.1 <= e.1;
    FlatEdges(t, p, u, v);
    FlatEdges(t, p, d, e);
    if u.0 < v.0 {
      OnChord(t, p, u, v, true);
    } else if d.1 < e.1 {
      OnChord(t, p, d, e, false);
    } else {
      CornerIsInside(t);
      assert p == t.a;
    }
  }

  lemma CornerIsInside(t: Triangle)
    ensures t.Inside(t.a)
  {
    assert t.MeanIs(t.a, 1, 0, 0);
  }

  // The pixels coloured are those of the closed triangle, whichever way the corners
  // turn and also when they lie on one line; the bounding box cuts nothing off.
  lemma RegionIsTriangle(t: Triangle, p: Pixel)
    ensures t.InBounds(p) && t.Covers(p) <==> t.Inside(p)
  {
    if t.InBounds(p) && t.Covers(p) {
      if t.Area() == 0 { FlatIsInside(t, p); } else { CoveredIsInside(t, p); }
    }
    if t.Inside(p) {
      InsideIsCovered(t, p);
      var l, m, n :| t.MeanIs(p, l, m, n);
      MeanIsBetween(l, m, n, t.a.0, t.b.0, t.c.0, p.0);
      MeanIsBetween(l, m, n, t.a.1, t.b.1, t.c.1, p.1);
    }
  }

  // The covered pixels of a range of columns of one row.
  ghost predicate ListsRow(ps: seq<Pixel>, t: Triangle, y: int, x0: int, x1: int) {
    forall p: Pixel :: p in ps <==> p.1 == y && x0 <= p.0 < x1 && t.Covers(p)
  }

  ghost predicate ListsRows(ps: seq<Pixel>, t: Triangle, x0: int, x1: int, y0: int, y1: int) {
    forall p: Pixel :: p in ps <==> y0 <= p.1 < y1 && x0 <= p.0 < x1 && t.Covers(p)
  }

  /** One row: every write is on the canvas, with no test. */
  method PlotRow(buf: array<Color>, w: int, h: int, t: Triangle, y: int, minx: int, maxx: int, color: Color)
    returns (ghost ps: seq<Pixel>)
    requires Holds(buf.Length, w, h) && 0 <= y < h && 0 <= minx && maxx < w
    modifies buf
    ensures ListsRow(ps, t, y, minx, maxx + 1) && buf[..] == Paint(old(buf[..]), w, h, ps, color)
  {
    ps := [];
    var x := minx;
    while x <= maxx
      invariant minx <= x && (x <= maxx + 1 || x == minx)
      invariant ListsRow(ps, t, y, minx, x) && buf[..] == Paint(old(buf[..]), w, h, ps, color)
    {
      var w0, w1, w2 := t.W0((x, y)), t.W1((x, y)), t.W2((x, y));
      var inside := (w0 >= 0 && w1 >= 0 && w2 >= 0) || (w0 <= 0 && w1 <= 0 && w2 <= 0);
      assert inside == t.Covers((x, y));
      hide Triangle.Covers, Triangle.W0, Triangle.W1, Triangle.W2, Paint, Put;
      if inside {
        SetPixel(buf, w, h, x, y, color);
        PaintMore(old(buf[..]), w, h, ps, (x, y), color);
        ps := ps + [(x, y)];
      }
      x := x + 1;
    }
  }

  /** The triangle over what the canvas showed before. */
  method PlotTriangle(buf: array<Color>, w: int, h: int, t: Triangle, color: Color)
    requires Holds(buf.Length, w, h)
    modifies buf
    ensures Painted(old(buf[..]), buf[..], w, h, color, p => t.InBounds(p) && t.Covers(p))
  {
    hide Triangle.Covers, Paint;
    var minx, maxx := Max(0, Min(Min(t.a.0, t.b.0), t.c.0)), Min(w - 1, Max(Max(t.a.0, t.b.0), t.c.0));
    var miny, maxy := Max(0, Min(Min(t.a.1, t.b.1), t.c.1)), Min(h - 1, Max(Max(t.a.1, t.b.1), t.c.1));
    ghost var ps: seq<Pixel> := [];
    var y := miny;
    assert buf[..] == Paint(old(buf[..]), w, h, [], color) by { PaintNothing(buf[..], w, h, color); }
    while y <= maxy
      invariant miny <= y && (y <= maxy + 1 || y == miny)
      invariant ListsRows(ps, t, minx, maxx + 1, miny, y) && buf[..] == Paint(old(buf[..]), w, h, ps, color)
    {
      ghost var row := PlotRow(buf, w, h, t, y, minx, maxx, color);
      PaintConcat(old(buf[..]), w, h, ps, row, color);
      ps := ps + row;
      y := y + 1;
    }
    assert Lists(ps, w, h, p => t.InBounds(p) && t.Covers(p));
  }
}
