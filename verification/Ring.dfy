// The midpoint circle of the canvas kernels (toolkit/src/view/raster.cpp).
module Ring {
  import opened Canvas
  import opened Ints

  function Sq(a: int): int { a * a }

  // (x, y) in the first octant is a circle pixel: x is the integer nearest to
  // the square root of r^2 - y^2 (see NearestRoot).
  predicate Octant(r: int, x: int, y: int) {
    && 0 <= y <= x && 0 <= r
    && (x == 0 || Sq(x) - x + Sq(y) < Sq(r))
    && Sq(r) <= Sq(x) + x + Sq(y)
  }

  predicate OnRing(r: int, cx: int, cy: int, p: Pixel) {
    var a, b := Abs(p.0 - cx), Abs(p.1 - cy);
    if a >= b then Octant(r, a, b) else Octant(r, b, a)
  }

  // The eight writes of one turn of the loop.
  function Reflections(cx: int, cy: int, x: int, y: int): seq<Pixel> {
    [(cx + x, cy + y), (cx - x, cy + y), (cx + x, cy - y), (cx - x, cy - y),
     (cx + y, cy + x), (cx - y, cy + x), (cx + y, cy - x), (cx - y, cy - x)]
  }

  // The writes of the loop from a given state on.
  function Trace(cx: int, cy: int, x: int, y: int, err: int): seq<Pixel>
    decreases x - y + 1
  {
    if x < y then []
    else if err < 0 then Reflections(cx, cy, x, y) + Trace(cx, cy, x, y + 1, err + 2 * (y + 1) + 1)
    else Reflections(cx, cy, x, y) + Trace(cx, cy, x - 1, y + 1, err + 2 * (y + 1 - (x - 1)) + 1)
  }

  function RingPixels(cx: int, cy: int, r: int): seq<Pixel> {
    Trace(cx, cy, r, 0, 1 - r)
  }

  // What the loop keeps for r >= 0: the error term, and x as the nearest root
  // while the loop goes on.
  ghost predicate State(r: int, x: int, y: int, err: int) {
    && 0 <= r && 0 <= y && -1 <= x && (y == 0 ==> 0 <= x)
    && err == Sq(y + 1) + Sq(x) - x - Sq(r)
    && Sq(r) <= Sq(x) + x + Sq(y)
    && (x >= y ==> Octant(r, x, y))
  }

  lemma {:induction false} StateNext(r: int, x: int, y: int, err: int)
    requires State(r, x, y, err) && x >= y
    ensures if err < 0 then State(r, x, y + 1, err + 2 * (y + 1) + 1)
            else State(r, x - 1, y + 1, err + 2 * (y + 1 - (x - 1)) + 1)
  {
    assert Sq(y + 2) == Sq(y + 1) + 2 * (y + 1) + 1 && Sq(y + 1) == Sq(y) + 2 * y + 1;
    assert Sq(x - 1) == Sq(x) - 2 * x + 1;
  }

  lemma Grows(a: int, b: int)
    requires 0 <= a <= b
    ensures Sq(a) <= Sq(b) && Sq(a) - a <= Sq(b) - b
    ensures Sq(a + 1) == Sq(a) + 2 * a + 1
  {
    ProductMonotone(a, b, a);
    ProductMonotone(a, b, b);
    if a < b {
      Distribute(b, -1, b);
      ProductMonotone(a, b - 1, b);
    }
  }

  // The first-octant pixel of a row is unique.
  lemma OctantUnique(r: int, x: int, a: int, y: int)
    requires Octant(r, x, y) && Octant(r, a, y)
    ensures x == a
  {
    Grows(x, x);
    Grows(a, a);
    if x < a {
      Grows(x + 1, a);
    } else if a < x {
      Grows(a + 1, x);
    }
  }

  // Once x < y no circle pixel of the octant is left.
  lemma OctantDone(r: int, x: int, y: int, a: int, b: int)
    requires -1 <= x < y <= b && 1 <= y && Sq(r) <= Sq(x) + x + Sq(y)
    ensures !Octant(r, a, b)
  {
    if 0 <= b <= a {
      if x >= 0 { Grows(x, x); }
      Grows(x + 1, y);
      Grows(y, b);
      Grows(b, a);
    }
  }

  // The pixel is one of the eight reflections of (a, b).
  predicate Mirrors(cx: int, cy: int, a: int, b: int, p: Pixel) {
    var u, v := Abs(p.0 - cx), Abs(p.1 - cy);
    (u == a && v == b) || (u == b && v == a)
  }

  lemma ReflectionsAre(cx: int, cy: int, x: int, y: int, p: Pixel)
    requires 0 <= y <= x
    ensures p in Reflections(cx, cy, x, y) <==> Mirrors(cx, cy, x, y, p)
  {
    var r := Reflections(cx, cy, x, y);
    if Mirrors(cx, cy, x, y, p) {
      assert p == r[0] || p == r[1] || p == r[2] || p == r[3] || p == r[4] || p == r[5] || p == r[6] || p == r[7];
    }
  }

  lemma NoRowsLeft(r: int, x: int, y: int, err: int, a: int, b: int)
    requires State(r, x, y, err) && x < y
    ensures b >= y ==> !Octant(r, a, b)
  {
    if b >= y { OctantDone(r, x, y, a, b); }
  }

  // One turn writes the circle pixels of its row.
  lemma RowIs(r: int, cx: int, cy: int, x: int, y: int, err: int, a: int, b: int, p: Pixel)
    requires State(r, x, y, err) && x >= y && 0 <= b <= a && Mirrors(cx, cy, a, b, p)
    ensures p in Reflections(cx, cy, x, y) <==> b == y && Octant(r, a, b)
  {
    hide Reflections;
    ReflectionsAre(cx, cy, x, y, p);
    if b == y && Octant(r, a, b) { OctantUnique(r, x, a, y); }
  }

  // From a state on, the loop writes exactly the circle pixels of the rows left.
  lemma {:induction false} TraceExactly(r: int, cx: int, cy: int, x: int, y: int, err: int, a: int, b: int, p: Pixel)
    requires State(r, x, y, err) && 0 <= b <= a && Mirrors(cx, cy, a, b, p)
    ensures p in Trace(cx, cy, x, y, err) <==> b >= y && Octant(r, a, b)
    decreases x - y + 1
  {
    hide State, Octant, Reflections, Mirrors;
    if x < y {
      NoRowsLeft(r, x, y, err, a, b);
    } else {
      StateNext(r, x, y, err);
      RowIs(r, cx, cy, x, y, err, a, b, p);
      if err < 0 {
        TraceExactly(r, cx, cy, x, y + 1, err + 2 * (y + 1) + 1, a, b, p);
      } else {
        TraceExactly(r, cx, cy, x - 1, y + 1, err + 2 * (y + 1 - (x - 1)) + 1, a, b, p);
      }
    }
  }

  // The pixels written are exactly the circle pixels, in all eight octants.
  lemma {:induction false} RingExactly(cx: int, cy: int, r: int, p: Pixel)
    ensures p in RingPixels(cx, cy, r) <==> OnRing(r, cx, cy, p)
  {
    if r >= 0 {
      var u, v := Abs(p.0 - cx), Abs(p.1 - cy);
      assert State(r, r, 0, 1 - r);
      TraceExactly(r, cx, cy, r, 0, 1 - r, Max(u, v), if u >= v then v else u, p);
    }
  }

  // A circle pixel is nearest to the true circle on its row: within half a pixel
  // of the root, hence within r of r^2.
  lemma {:induction false} NearestRoot(r: int, x: int, y: int)
    requires r >= 1 && Octant(r, x, y)
    ensures Sq(2 * x - 1) < 4 * (Sq(r) - Sq(y)) < Sq(2 * x + 1)
    ensures Abs(Sq(x) + Sq(y) - Sq(r)) <= r
  {
    assert Sq(2 * x - 1) == 4 * Sq(x) - 4 * x + 1 && Sq(2 * x + 1) == 4 * Sq(x) + 4 * x + 1;
    Grows(1, r);
    Grows(0, y);
    if x > r {
      Grows(r, r);
      Grows(r + 1, x);
    }
  }

  /** The eight writes of one turn. */
  method PutReflections(buf: array<Color>, w: int, h: int, cx: int, cy: int, x: int, y: int, color: Color)
    requires Holds(buf.Length, w, h)
    modifies buf
    ensures buf[..] == Paint(old(buf[..]), w, h, Reflections(cx, cy, x, y), color)
  {
    var todo := Reflections(cx, cy, x, y);
    for i := 0 to 8
      invariant buf[..] == Paint(old(buf[..]), w, h, todo[..i], color)
    {
      assert todo[..i + 1] == todo[..i] + [todo[i]];
      PaintMore(old(buf[..]), w, h, todo[..i], todo[i], color);
      PutPixel(buf, w, h, todo[i].0, todo[i].1, color);
    }
    assert todo[..8] == todo;
  }

  // The list of writes so far and those to come make up the ring.
  ghost predicate Partway(done: seq<Pixel>, cx: int, cy: int, r: int, x: int, y: int, err: int) {
    done + Trace(cx, cy, x, y, err) == RingPixels(cx, cy, r)
  }

  lemma TraceNext(done: seq<Pixel>, cx: int, cy: int, r: int, x: int, y: int, err: int)
    requires Partway(done, cx, cy, r, x, y, err)
    ensures x < y ==> done == RingPixels(cx, cy, r)
    ensures x >= y && err < 0 ==>
              Partway(done + Reflections(cx, cy, x, y), cx, cy, r, x, y + 1, err + 2 * (y + 1) + 1)
    ensures x >= y && err >= 0 ==>
              Partway(done + Reflections(cx, cy, x, y), cx, cy, r, x - 1, y + 1, err + 2 * (y + 1 - (x - 1)) + 1)
  {
    var now := Reflections(cx, cy, x, y);
    if x >= y {
      var rest := if err < 0 then Trace(cx, cy, x, y + 1, err + 2 * (y + 1) + 1)
                  else Trace(cx, cy, x - 1, y + 1, err + 2 * (y + 1 - (x - 1)) + 1);
      assert done + (now + rest) == (done + now) + rest;
    }
  }

  /** The circle: it writes exactly the circle pixels that lie on the canvas. */
  method PlotRing(buf: array<Color>, w: int, h: int, cx: int, cy: int, r: int, color: Color)
    requires Holds(buf.Length, w, h)
    modifies buf
    ensures buf[..] == Paint(old(buf[..]), w, h, RingPixels(cx, cy, r), color)
  {
    var x, y, err := r, 0, 1 - r;
    ghost var done: seq<Pixel> := [];
    while x >= y
      invariant Partway(done, cx, cy, r, x, y, err)
      invariant buf[..] == Paint(old(buf[..]), w, h, done, color)
    {
      TraceNext(done, cx, cy, r, x, y, err);
      PutReflections(buf, w, h, cx, cy, x, y, color);
      ghost var now := Reflections(cx, cy, x, y);
      PaintConcat(old(buf[..]), w, h, done, now, color);
      done := done + now;
      y := y + 1;
      if err < 0 {
        err := err + 2 * y + 1;
      } else {
        x := x - 1;
        err := err + 2 * (y - x) + 1;
      }
    }
    TraceNext(done, cx, cy, r, x, y, err);
  }
}
