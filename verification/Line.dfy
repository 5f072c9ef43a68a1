// The Bresenham line of the canvas kernels (toolkit/src/view/raster.cpp) and of
// the base map (toolkit/src/map/map_renderer.cpp). Pixel arithmetic is on
// mathematical integers.
module Line {
  import opened Canvas
  import opened Ints

  // The integer nearest a / b, halves up.
  function Nearest(a: int, b: int): int
    requires b > 0
  {
    (2 * a + b) / (2 * b)
  }

  lemma NearestIs(a: int, b: int, j: int)
    requires b > 0 && 2 * (j * b) <= 2 * a + b < 2 * (j * b) + 2 * b
    ensures Nearest(a, b) == j
  {
    assert j * (2 * b) == 2 * (j * b);
    QuotientIs(2 * a + b, 2 * b, j);
  }

  lemma NearestBounds(a: int, b: int)
    requires b > 0
    ensures 2 * (Nearest(a, b) * b) <= 2 * a + b < 2 * (Nearest(a, b) * b) + 2 * b
  {
    var q := Nearest(a, b);
    QuotientBounds(2 * a + b, 2 * b);
    assert q * (2 * b) == 2 * (q * b);
  }

  datatype Ends = Ends(x0: int, y0: int, x1: int, y1: int) {
    function Dx(): int { Abs(x1 - x0) }
    function Dy(): int { Abs(y1 - y0) }
    function Sx(): int { if x0 < x1 then 1 else -1 }
    function Sy(): int { if y0 < y1 then 1 else -1 }

    // The number of steps: the larger extent.
    function Steps(): int { Max(Dx(), Dy()) }

    // How far pixel k has moved on each axis.
    function I(k: nat): int {
      if Dx() >= Dy() then k else Nearest(k * Dx(), Dy())
    }

    function J(k: nat): int {
      if Dy() >= Dx() then k else Nearest(k * Dy(), Dx())
    }

    // Pixel k of the line: k steps on the major axis, rounded on the other.
    function At(k: nat): Pixel {
      (x0 + Sx() * I(k), y0 + Sy() * J(k))
    }

    function Prefix(n: nat): (s: seq<Pixel>)
      ensures |s| == n
    {
      seq(n, k requires 0 <= k => At(k))
    }

    // The pixels of the line, in order.
    function Pixels(): seq<Pixel> { Prefix(Steps() + 1) }

    // The error term the loop carries at pixel k.
    function Err(k: nat): int { (J(k) + 1) * Dx() - (I(k) + 1) * Dy() }
  }

  lemma StartsAt(e: Ends)
    ensures e.At(0) == (e.x0, e.y0) && e.Err(0) == e.Dx() - e.Dy()
  {
    if e.Dx() < e.Dy() { NearestIs(0 * e.Dx(), e.Dy(), 0); }
    if e.Dy() < e.Dx() { NearestIs(0 * e.Dy(), e.Dx(), 0); }
  }

  // Only the last pixel is the end point, so the endless loop stops exactly there.
  lemma {:induction false} StopsAt(e: Ends, k: nat)
    requires k <= e.Steps()
    ensures e.At(k) == (e.x1, e.y1) <==> k == e.Steps()
  {
    if k == e.Steps() {
      if e.Dx() < e.Dy() { NearestIs(k * e.Dx(), e.Dy(), e.Dx()); }
      if e.Dy() < e.Dx() { NearestIs(k * e.Dy(), e.Dx(), e.Dy()); }
    }
  }

  // One step, as the error term decides it: the major axis always moves, the
  // minor one exactly when its rounding does.
  lemma MinorMoves(k: int, minor: int, major: int)
    requires 0 <= minor < major && 0 <= k
    ensures var j := Nearest(k * minor, major);
            var err := (j + 1) * major - (k + 1) * minor;
            && 2 * err >= 0 - minor
            && Nearest((k + 1) * minor, major) == if 2 * err <= major then j + 1 else j
  {
    var j := Nearest(k * minor, major);
    NearestBounds(k * minor, major);
    Distribute(k, 1, minor);
    Distribute(j, 1, major);
    NearestIs((k + 1) * minor, major, if 2 * ((j + 1) * major - (k + 1) * minor) <= major then j + 1 else j);
  }

  // One turn of the loop: the two error tests move exactly to the next pixel.
  lemma {:induction false} Moves(e: Ends, k: nat)
    requires k < e.Steps()
    ensures e.I(k + 1) == (if 2 * e.Err(k) >= 0 - e.Dy() then e.I(k) + 1 else e.I(k))
    ensures e.J(k + 1) == (if 2 * e.Err(k) <= e.Dx() then e.J(k) + 1 else e.J(k))
  {
    if e.Dx() > e.Dy() {
      MinorMoves(k, e.Dy(), e.Dx());
    } else if e.Dx() < e.Dy() {
      MinorMoves(k, e.Dx(), e.Dy());
    }
  }

  // The loop stands at pixel k with its error term.
  ghost predicate Reached(e: Ends, k: int, x: int, y: int, err: int) {
    0 <= k <= e.Steps() && (x, y) == e.At(k) && err == e.Err(k)
  }

  // The same turn as the loop body performs it on x, y and err.
  lemma {:induction false} Turn(e: Ends, k: nat, x: int, y: int, err: int, dx: int, dy: int, sx: int, sy: int)
    requires Reached(e, k, x, y, err) && k < e.Steps()
    requires dx == e.Dx() && dy == 0 - e.Dy() && sx == e.Sx() && sy == e.Sy()
    ensures var right, down := 2 * err >= dy, 2 * err <= dx;
            Reached(e, k + 1, if right then x + sx else x, if down then y + sy else y,
                    err + (if right then dy else 0) + (if down then dx else 0))
  {
    var i, j := e.I(k), e.J(k);
    Moves(e, k);
    Distribute(i + 1, 1, e.Dy());
    Distribute(j + 1, 1, e.Dx());
    Distribute(i, 1, e.Sx());
    Distribute(j, 1, e.Sy());
  }

  // Every pixel is within half a pixel of the ideal line, on the minor axis.
  lemma {:induction false} WithinHalfPixel(e: Ends, k: nat)
    requires k <= e.Steps()
    ensures var (x, y) := e.At(k);
            2 * Abs((y - e.y0) * (e.x1 - e.x0) - (x - e.x0) * (e.y1 - e.y0)) <= e.Steps()
  {
    var dx, dy := e.Dx(), e.Dy();
    var i, j := e.I(k), e.J(k);
    if dx > dy { NearestBounds(k * dy, dx); }
    if dx < dy { NearestBounds(k * dx, dy); }
    assert 2 * Abs(j * dx - i * dy) <= e.Steps();
    assert e.x1 - e.x0 == e.Sx() * dx && e.y1 - e.y0 == e.Sy() * dy;
    SignedCross(e.Sx(), e.Sy(), i, j, dx, dy);
  }

  // Which of two pixels as near it takes: the one a step further on the minor axis.
  lemma TiesGoOn(e: Ends, k: nat)
    requires k <= Max(Abs(e.x1 - e.x0), Abs(e.y1 - e.y0))
    ensures var (dx, dy) := (Abs(e.x1 - e.x0), Abs(e.y1 - e.y0));
            var (i, j) := (Abs(e.At(k).0 - e.x0), Abs(e.At(k).1 - e.y0));
            && (dx >= dy ==> i == k && 2 * (j * dx - k * dy) <= dx && (dx > 0 ==> 0 - dx < 2 * (j * dx - k * dy)))
            && (dy >= dx ==> j == k && 2 * (i * dy - k * dx) <= dy && (dy > 0 ==> 0 - dy < 2 * (i * dy - k * dx)))
  {
    hide Nearest;
    var i, j := e.I(k), e.J(k);
    if e.Dx() > e.Dy() { NearestTie(k, e.Dy(), e.Dx()); }
    if e.Dx() < e.Dy() { NearestTie(k, e.Dx(), e.Dy()); }
    SignedAbs(e.Sx(), i);
    SignedAbs(e.Sy(), j);
  }

  lemma NearestTie(k: nat, minor: int, major: int)
    requires 0 <= minor < major
    ensures var j := Nearest(k * minor, major); j >= 0 && 0 - major < 2 * (j * major - k * minor) <= major
  {
    ProductMonotone(0, k, minor);
    NearestBounds(k * minor, major);
    NearestNatural(k * minor, major);
  }

  lemma NearestNatural(a: int, b: int)
    requires b > 0 && a >= 0
    ensures Nearest(a, b) >= 0
  {}

  lemma SignedAbs(s: int, i: int)
    requires (s == 1 || s == -1) && i >= 0
    ensures Abs(s * i) == i
  {}

  lemma SignedCross(sx: int, sy: int, i: int, j: int, dx: int, dy: int)
    requires (sx == 1 || sx == -1) && (sy == 1 || sy == -1)
    ensures Abs((sy * j) * (sx * dx) - (sx * i) * (sy * dy)) == Abs(j * dx - i * dy)
  {
    assert (sy * j) * (sx * dx) == (sx * sy) * (j * dx);
    assert (sx * i) * (sy * dy) == (sx * sy) * (i * dy);
  }

  // Consecutive pixels touch, and the major axis advances by one every step.
  lemma {:induction false} Connected(e: Ends, k: nat)
    requires k < e.Steps()
    ensures var ((x, y), (x', y')) := (e.At(k), e.At(k + 1));
            Abs(x' - x) <= 1 && Abs(y' - y) <= 1 && Max(Abs(x' - x), Abs(y' - y)) == 1
    ensures e.Dx() >= e.Dy() ==> e.At(k).0 == e.x0 + e.Sx() * k
    ensures e.Dy() >= e.Dx() ==> e.At(k).1 == e.y0 + e.Sy() * k
  {
    Moves(e, k);
  }

  lemma LineNext(was: seq<Color>, w: int, h: int, e: Ends, k: nat, p: Pixel, color: Color)
    requires Holds(|was|, w, h) && p == e.At(k)
    ensures Put(Paint(was, w, h, e.Prefix(k), color), w, h, p, color) == Paint(was, w, h, e.Prefix(k + 1), color)
  {
    assert e.Prefix(k + 1) == e.Prefix(k) + [p];
    PaintMore(was, w, h, e.Prefix(k), p, color);
  }

  /** The plain line: it ends, and it writes exactly the pixels of the line that
      lie on the canvas. */
  method PlotLine(buf: array<Color>, w: int, h: int, x0: int, y0: int, x1: int, y1: int, color: Color)
    requires Holds(buf.Length, w, h)
    modifies buf
    ensures buf[..] == Paint(old(buf[..]), w, h, Ends(x0, y0, x1, y1).Pixels(), color)
  {
    hide Paint, Put;
    ghost var e := Ends(x0, y0, x1, y1);
    var dx, dy := Abs(x1 - x0), 0 - Abs(y1 - y0);
    var sx, sy := if x0 < x1 then 1 else -1, if y0 < y1 then 1 else -1;
    var x, y, err := x0, y0, dx + dy;
    ghost var k := 0;
    StartsAt(e);
    PaintNothing(buf[..], w, h, color);
    while true
      invariant Reached(e, k, x, y, err)
      invariant buf[..] == Paint(old(buf[..]), w, h, e.Prefix(k), color)
      decreases e.Steps() - k
    {
      PutPixel(buf, w, h, x, y, color);
      LineNext(old(buf[..]), w, h, e, k, (x, y), color);
      StopsAt(e, k);
      if x == x1 && y == y1 {
        break;
      }
      Turn(e, k, x, y, err, dx, dy, sx, sy);
      var e2 := 2 * err;
      if e2 >= dy { err, x := err + dy, x + sx; }
      if e2 <= dx { err, y := err + dx, y + sy; }
      k := k + 1;
    }
  }

  // What the plain line leaves on the canvas: its colour on every pixel of the line,
  // both ends included, and nothing else changed.
  lemma LineShows(was: seq<Color>, w: int, h: int, e: Ends, color: Color, p: Pixel)
    requires Holds(|was|, w, h) && On(w, h, p)
    ensures 0 <= Offset(w, p) < |was|
    ensures Paint(was, w, h, e.Pixels(), color)[Offset(w, p)] ==
            if exists k: nat :: k <= Max(Abs(e.x1 - e.x0), Abs(e.y1 - e.y0)) && e.At(k) == p then color else was[Offset(w, p)]
  {
    PaintAt(was, w, h, e.Pixels(), color, p);
    InPixels(e, p);
    hide Paint;
  }

  lemma InPixels(e: Ends, p: Pixel)
    ensures p in e.Pixels() <==> exists k: nat :: k <= Max(Abs(e.x1 - e.x0), Abs(e.y1 - e.y0)) && e.At(k) == p
  {
    forall k: nat | k <= e.Steps() && e.At(k) == p ensures p in e.Pixels() { assert e.Pixels()[k] == p; }
  }

  // What the base map leaves out of a line: alternate pairs of steps of a dashed
  // one, and what lies outside the circle of radius r around (cx, cy).
  datatype Mask = Mask(circle: bool, dash: bool, cx: int, cy: int, r: int) {
    predicate InCircle(p: Pixel) {
      (p.0 - cx) * (p.0 - cx) + (p.1 - cy) * (p.1 - cy) <= r * r
    }

    predicate Draws(k: nat, p: Pixel) {
      (!dash || (k / 2) % 2 == 0) && (!circle || InCircle(p))
    }
  }

  // The pixels the base map draws among the first n of the line.
  function Drawn(e: Ends, mask: Mask, n: nat): seq<Pixel> {
    if n == 0 then []
    else if mask.Draws(n - 1, e.At(n - 1)) then Drawn(e, mask, n - 1) + [e.At(n - 1)]
    else Drawn(e, mask, n - 1)
  }

  // Step k of the line is drawn at p: an even pair of steps if dashed, and no further
  // than r from (cx, cy) if cut to a circle.
  predicate DrawnAt(e: Ends, mask: Mask, k: nat, p: Pixel) {
    && e.At(k) == p
    && (mask.dash ==> (k / 2) % 2 == 0)
    && (mask.circle ==> (p.0 - mask.cx) * (p.0 - mask.cx) + (p.1 - mask.cy) * (p.1 - mask.cy) <= mask.r * mask.r)
  }

  // A pixel is drawn exactly when it is a pixel of the line that the mask lets through.
  lemma {:induction false} DrawnExactly(e: Ends, mask: Mask, n: nat, p: Pixel)
    ensures p in Drawn(e, mask, n) <==> exists k: nat :: k < n && DrawnAt(e, mask, k, p)
  {
    if n > 0 {
      DrawnExactly(e, mask, n - 1, p);
      DrawsIff(e, mask, n - 1);
    }
  }

  lemma DrawsIff(e: Ends, mask: Mask, k: nat)
    ensures mask.Draws(k, e.At(k)) <==> DrawnAt(e, mask, k, e.At(k))
  {}

  // And on the canvas.
  lemma MapLineShows(was: seq<Color>, w: int, h: int, e: Ends, mask: Mask, color: Color, p: Pixel)
    requires Holds(|was|, w, h) && On(w, h, p)
    ensures 0 <= Offset(w, p) < |was|
    ensures Paint(was, w, h, Drawn(e, mask, e.Steps() + 1), color)[Offset(w, p)] ==
            if exists k: nat :: k <= Max(Abs(e.x1 - e.x0), Abs(e.y1 - e.y0)) && DrawnAt(e, mask, k, p) then color
            else was[Offset(w, p)]
  {
    hide Paint, Drawn, DrawnAt;
    PaintAt(was, w, h, Drawn(e, mask, e.Steps() + 1), color, p);
    DrawnExactly(e, mask, e.Steps() + 1, p);
  }

  lemma DrawnNext(was: seq<Color>, now: seq<Color>, w: int, h: int, e: Ends, mask: Mask, k: nat, p: Pixel, color: Color)
    requires Holds(|was|, w, h) && |now| == |was| && p == e.At(k)
    requires var before := Paint(was, w, h, Drawn(e, mask, k), color);
             now == if mask.Draws(k, p) then Put(before, w, h, p, color) else before
    ensures now == Paint(was, w, h, Drawn(e, mask, k + 1), color)
  {
    PaintMore(was, w, h, Drawn(e, mask, k), p, color);
  }

  /** One pixel of a base-map line. */
  method PutMasked(buf: array<Color>, w: int, h: int, mask: Mask, step: nat, x: int, y: int, color: Color)
    requires Holds(buf.Length, w, h)
    modifies buf
    ensures buf[..] == if mask.Draws(step, (x, y)) then Put(old(buf[..]), w, h, (x, y), color) else old(buf[..])
  {
    if !mask.dash || (step / 2) % 2 == 0 {
      var draw := true;
      if mask.circle {
        var ex, ey := x - mask.cx, y - mask.cy;
        draw := ex * ex + ey * ey <= mask.r * mask.r;
      }
      if draw {
        PutPixel(buf, w, h, x, y, color);
      }
    }
  }

  /** The base-map line: the same walk, with the circle and dash tests. */
  method PlotMapLine(buf: array<Color>, w: int, h: int, mask: Mask, x0: int, y0: int, x1: int, y1: int, color: Color)
    requires Holds(buf.Length, w, h)
    modifies buf
    ensures var e := Ends(x0, y0, x1, y1);
            buf[..] == Paint(old(buf[..]), w, h, Drawn(e, mask, e.Steps() + 1), color)
  {
    ghost var e := Ends(x0, y0, x1, y1);
    var dx, dy := Abs(x1 - x0), 0 - Abs(y1 - y0);
    var sx, sy := if x0 < x1 then 1 else -1, if y0 < y1 then 1 else -1;
    var x, y, err := x0, y0, dx + dy;
    var step := 0;
    StartsAt(e);
    while true
      invariant Reached(e, step, x, y, err)
      invariant buf[..] == Paint(old(buf[..]), w, h, Drawn(e, mask, step), color)
      decreases e.Steps() - step
    {
      PutMasked(buf, w, h, mask, step, x, y, color);
      DrawnNext(old(buf[..]), buf[..], w, h, e, mask, step, (x, y), color);
      StopsAt(e, step);
      if x == x1 && y == y1 {
        break;
      }
      Turn(e, step, x, y, err, dx, dy, sx, sy);
      var e2 := 2 * err;
      if e2 >= dy { err, x := err + dy, x + sx; }
      if e2 <= dx { err, y := err + dx, y + sy; }
      step := step + 1;
    }
  }
}
