// The even-odd scanline fill of the base map (toolkit/src/map/map_renderer.cpp),
// over a ring that is already projected.
module Fill {
  import opened Geometry
  import opened Canvas
  import opened EvenOdd
  import opened Ints
  import opened Reals

  // The x of every crossing of the path with the scanline, in path order.
  function Crossings(prev: Point, ps: seq<Point>, y: real): seq<real> {
    if ps == [] then []
    else
      var n := |ps| - 1;
      var from := if n == 0 then prev else ps[n - 1];
      if Crosses(from, ps[n], y) then Crossings(prev, ps[..n], y) + [XAt(from, ps[n], y)]
      else Crossings(prev, ps[..n], y)
  }

  function RingCrossings(ring: seq<Point>, y: real): seq<real> {
    if ring == [] then [] else Crossings(Last(ring), ring, y)
  }

  function Below(xs: seq<real>, x: real): nat {
    if xs == [] then 0 else Below(xs[..|xs| - 1], x) + (if Last(xs) < x then 1 else 0)
  }

  function Centre(p: Pixel): Point {
    Point(p.0 as real + 0.5, p.1 as real + 0.5)
  }

  // The region the fill shows: pixels whose centre is enclosed or on a crossing.
  predicate Shown(ring: seq<Point>, p: Pixel) {
    Encloses(ring, Centre(p)) || Centre(p).x in RingCrossings(ring, Centre(p).y)
  }

  lemma BelowMore(xs: seq<real>, e: real, x: real)
    ensures Below(xs + [e], x) == Below(xs, x) + (if e < x then 1 else 0)
  {
    assert (xs + [e])[..|xs|] == xs;
  }

  predicate OddBelow(xs: seq<real>, x: real) {
    xs != [] && OddBelow(xs[..|xs| - 1], x) != (Last(xs) < x)
  }

  lemma {:induction false} OddBelowCounts(xs: seq<real>, x: real)
    ensures OddBelow(xs, x) <==> Below(xs, x) % 2 == 1
  {
    if xs != [] {
      OddBelowCounts(xs[..|xs| - 1], x);
    }
  }

  lemma OddBelowMore(xs: seq<real>, e: real, x: real)
    ensures OddBelow(xs + [e], x) == (OddBelow(xs, x) != (e < x))
  {
    assert (xs + [e])[..|xs|] == xs;
  }

  // Counting the crossings to the left is the even-odd rule.
  lemma {:induction false} BelowIsOdd(prev: Point, ps: seq<Point>, q: Point)
    ensures OddBelow(Crossings(prev, ps, q.y), q.x) <==> PathOdd(true, prev, ps, q)
  {
    if ps != [] {
      var n := |ps| - 1;
      var from := if n == 0 then prev else ps[n - 1];
      BelowIsOdd(prev, ps[..n], q);
      PathLast(prev, ps, q);
      OddBelowMore(Crossings(prev, ps[..n], q.y), XAt(from, ps[n], q.y), q.x);
    }
  }

  lemma PathLast(prev: Point, ps: seq<Point>, q: Point)
    requires ps != []
    ensures var n := |ps| - 1;
            var from := if n == 0 then prev else ps[n - 1];
            PathOdd(true, prev, ps, q) == (PathOdd(true, prev, ps[..n], q) != CrossesBeside(true, from, ps[n], q))
  {
    var n := |ps| - 1;
    var from := if n == 0 then prev else ps[n - 1];
    assert ps == ps[..n] + [ps[n]];
    assert [ps[n]][1..] == [];
    assert PathOdd(true, from, [ps[n]], q) == CrossesBeside(true, from, ps[n], q);
    if n > 0 {
      PathConcat(true, prev, ps[..n], [ps[n]], q);
    }
  }

  // A path crosses a scanline an odd number of times exactly when its ends lie on
  // different sides of it.
  lemma {:induction false} CrossingsParity(prev: Point, ps: seq<Point>, y: real)
    requires ps != []
    ensures |Crossings(prev, ps, y)| % 2 == 1 <==> Crosses(prev, Last(ps), y)
  {
    var n := |ps| - 1;
    if n > 0 {
      CrossingsParity(prev, ps[..n], y);
    } else {
      assert Crossings(prev, ps[..0], y) == [];
    }
  }

  // Every scanline crosses a closed ring an even number of times.
  lemma {:induction false} RingCrossingsEven(ring: seq<Point>, y: real)
    ensures |RingCrossings(ring, y)| % 2 == 0
  {
    if ring != [] {
      CrossingsParity(Last(ring), ring, y);
    }
  }

  // ---- sorting

  predicate Sorted(xs: seq<real>) {
    |xs| < 2 || (Sorted(xs[..|xs| - 1]) && xs[|xs| - 2] <= xs[|xs| - 1])
  }

  function Insert(xs: seq<real>, e: real): (r: seq<real>)
    ensures multiset(r) == multiset(xs) + multiset{e} && |r| == |xs| + 1
  {
    if xs == [] || Last(xs) <= e then xs + [e]
    else
      var n := |xs| - 1;
      assert xs == xs[..n] + [xs[n]];
      Insert(xs[..n], e) + [xs[n]]
  }

  lemma SortedMore(xs: seq<real>, e: real)
    requires Sorted(xs) && (xs != [] ==> Last(xs) <= e)
    ensures Sorted(xs + [e]) && Last(xs + [e]) == e
  {
    assert (xs + [e])[..|xs|] == xs;
  }

  lemma {:induction false} InsertSorted(xs: seq<real>, e: real)
    requires Sorted(xs)
    ensures Sorted(Insert(xs, e))
    ensures Last(Insert(xs, e)) == if xs != [] && Last(xs) > e then Last(xs) else e
  {
    if xs == [] || Last(xs) <= e {
      SortedMore(xs, e);
    } else {
      var n := |xs| - 1;
      InsertSorted(xs[..n], e);
      SortedMore(Insert(xs[..n], e), xs[n]);
    }
  }

  /** std::sort: the same values, in order. */
  method Sort(xs: seq<real>) returns (r: seq<real>)
    ensures Sorted(r) && multiset(r) == multiset(xs)
  {
    r := [];
    for i := 0 to |xs|
      invariant Sorted(r) && multiset(r) == multiset(xs[..i])
    {
      assert xs[..i + 1] == xs[..i] + [xs[i]];
      InsertSorted(r, xs[i]);
      r := Insert(r, xs[i]);
    }
    assert xs[..|xs|] == xs;
  }

  lemma Without(ys: seq<real>, k: nat)
    requires k < |ys|
    ensures multiset(ys[..k] + ys[k + 1..]) == multiset(ys) - multiset{ys[k]}
  {
    assert ys == ys[..k] + [ys[k]] + ys[k + 1..];
  }

  lemma {:induction false} BelowOfMultiset(xs: seq<real>, ys: seq<real>, x: real)
    requires multiset(xs) == multiset(ys)
    ensures Below(xs, x) == Below(ys, x)
  {
    assert |multiset(xs)| == |xs| && |multiset(ys)| == |ys|;
    if xs != [] {
      var n := |xs| - 1;
      assert xs[n] in multiset(ys);
      var k :| 0 <= k < |ys| && ys[k] == xs[n];
      Without(xs, n);
      Without(ys, k);
      assert xs[..n] + xs[n + 1..] == xs[..n];
      BelowOfMultiset(xs[..n], ys[..k] + ys[k + 1..], x);
      BelowWithout(ys, k, x);
    }
  }

  lemma BelowWithout(ys: seq<real>, k: nat, x: real)
    requires k < |ys|
    ensures Below(ys, x) == Below(ys[..k] + ys[k + 1..], x) + (if ys[k] < x then 1 else 0)
  {
    BelowMore(ys[..k], ys[k], x);
    assert ys == (ys[..k] + [ys[k]]) + ys[k + 1..];
    BelowConcat(ys[..k] + [ys[k]], ys[k + 1..], x);
    BelowConcat(ys[..k], ys[k + 1..], x);
  }

  lemma {:induction false} BelowConcat(xs: seq<real>, ys: seq<real>, x: real)
    ensures Below(xs + ys, x) == Below(xs, x) + Below(ys, x)
  {
    if ys == [] {
      assert xs + ys == xs;
    } else {
      var n := |ys| - 1;
      BelowConcat(xs, ys[..n], x);
      assert (xs + ys)[..|xs + ys| - 1] == xs + ys[..n];
    }
  }

  lemma {:induction false} SortedPair(xs: seq<real>, i: nat, j: nat)
    requires Sorted(xs) && i <= j < |xs|
    ensures xs[i] <= xs[j]
  {
    if i < j {
      if j == |xs| - 1 {
        SortedPair(xs[..|xs| - 1], i, j - 1);
      } else {
        SortedPair(xs[..|xs| - 1], i, j);
      }
    }
  }

  // In a sorted list the values below x come first.
  lemma {:induction false} BelowSorted(xs: seq<real>, x: real)
    requires Sorted(xs)
    ensures Below(xs, x) <= |xs|
    ensures forall i :: 0 <= i < |xs| ==> (xs[i] < x <==> i < Below(xs, x))
  {
    if xs != [] {
      BelowSorted(xs[..|xs| - 1], x);
    }
  }

  // ---- spans

  // x lies in one of the closed spans made of the first k sorted crossings.
  predicate InSpans(xs: seq<real>, k: int, x: real)
    requires 0 <= k <= |xs| && k % 2 == 0
  {
    k >= 2 && (InSpans(xs, k - 2, x) || xs[k - 2] <= x <= xs[k - 1])
  }

  lemma {:induction false} InSpansIff(xs: seq<real>, k: int, x: real)
    requires 0 <= k <= |xs| && k % 2 == 0
    ensures InSpans(xs, k, x) <==> exists m :: 0 <= m < k - 1 && m % 2 == 0 && xs[m] <= x <= xs[m + 1]
  {
    if k >= 2 {
      InSpansIff(xs, k - 2, x);
    }
  }

  // The spans cover a point exactly when an odd number of crossings lie to its
  // left, or it is itself a crossing.
  lemma {:induction false} SpansAreOdd(xs: seq<real>, x: real)
    requires Sorted(xs) && |xs| % 2 == 0
    ensures InSpans(xs, |xs|, x) <==> Below(xs, x) % 2 == 1 || x in xs
  {
    BelowSorted(xs, x);
    InSpansIff(xs, |xs|, x);
    var c := Below(xs, x);
    if c % 2 == 1 {
      assert xs[c - 1] <= x <= xs[c];
    } else if x in xs {
      assert xs[c] == x && xs[c] <= x <= xs[c + 1] by {
        var i :| 0 <= i < |xs| && xs[i] == x;
        SortedPair(xs, c, i);
      }
    }
  }

  // A row shows exactly its enclosed pixels, once its crossings are sorted.
  lemma {:induction false} RowShown(ring: seq<Point>, xs: seq<real>, p: Pixel)
    requires Sorted(xs) && multiset(xs) == multiset(RingCrossings(ring, Centre(p).y))
    ensures |xs| % 2 == 0
    ensures InSpans(xs, |xs|, Centre(p).x) <==> Shown(ring, p)
  {
    var q := Centre(p);
    var cs := RingCrossings(ring, q.y);
    assert |multiset(xs)| == |xs| && |multiset(cs)| == |cs|;
    RingCrossingsEven(ring, q.y);
    SpansAreOdd(xs, q.x);
    BelowOfMultiset(xs, cs, q.x);
    OddBelowCounts(cs, q.x);
    if ring != [] { BelowIsOdd(Last(ring), ring, q); }
    assert q.x in multiset(xs) <==> q.x in multiset(cs);
  }

  // ---- the rows

  function Ceil(x: real): int { -((-x).Floor) }

  // The pixels of a span: those whose centre lies in it.
  lemma SpanPixels(a: real, b: real, x: int)
    ensures Ceil(a - 0.5) <= x <= (b - 0.5).Floor <==> a <= x as real + 0.5 <= b
  {
    FloorIs(b - 0.5, x);
    FloorIs(-(a - 0.5), -x);
  }

  lemma FloorIs(r: real, x: int)
    ensures x <= r.Floor <==> x as real <= r
  {}

  /** One span of a row. */
  method FillSpan(buf: array<Color>, w: int, h: int, y: int, a: real, b: real, color: Color) returns (ghost ps: seq<Pixel>)
    requires Holds(buf.Length, w, h) && 0 <= y < h && 0 < w
    modifies buf
    ensures buf[..] == Paint(old(buf[..]), w, h, ps, color)
    ensures forall p: Pixel :: p in ps <==> p.1 == y && 0 <= p.0 < w && a <= p.0 as real + 0.5 <= b
  {
    var xa, xb := Max(0, Ceil(a - 0.5)), (b - 0.5).Floor;
    if w - 1 < xb { xb := w - 1; }
    ps := [];
    var x := xa;
    while x <= xb
      invariant xa <= x && (x <= xb + 1 || x == xa)
      invariant buf[..] == Paint(old(buf[..]), w, h, ps, color)
      invariant forall p: Pixel :: p in ps <==> p.1 == y && xa <= p.0 < x
    {
      SetPixel(buf, w, h, x, y, color);
      PaintMore(old(buf[..]), w, h, ps, (x, y), color);
      ps := ps + [(x, y)];
      x := x + 1;
    }
    forall p: Pixel | p.1 == y ensures xa <= p.0 < x <==> 0 <= p.0 < w && a <= p.0 as real + 0.5 <= b {
      SpanPixels(a, b, p.0);
    }
  }

  ghost predicate ListsRow(ps: seq<Pixel>, w: int, y: int, xs: seq<real>, k: int)
    requires 0 <= k <= |xs| && k % 2 == 0
  {
    forall p: Pixel :: p in ps <==> p.1 == y && 0 <= p.0 < w && InSpans(xs, k, Centre(p).x)
  }

  /** The spans of one row, two sorted crossings at a time. */
  method FillRow(buf: array<Color>, w: int, h: int, y: int, xs: seq<real>, color: Color) returns (ghost ps: seq<Pixel>)
    requires Holds(buf.Length, w, h) && 0 <= y < h && 0 < w && |xs| % 2 == 0
    modifies buf
    ensures buf[..] == Paint(old(buf[..]), w, h, ps, color)
    ensures ListsRow(ps, w, y, xs, |xs|)
  {
    ps := [];
    var k := 0;
    while k + 1 < |xs|
      invariant 0 <= k <= |xs| && k % 2 == 0
      invariant buf[..] == Paint(old(buf[..]), w, h, ps, color)
      invariant ListsRow(ps, w, y, xs, k)
    {
      ghost var more := FillSpan(buf, w, h, y, xs[k], xs[k + 1], color);
      PaintConcat(old(buf[..]), w, h, ps, more, color);
      ps := ps + more;
      k := k + 2;
    }
  }

  // Every vertex is above the scanline, or every vertex is not.
  predicate OneSided(ring: seq<Point>, y: real) {
    (forall v :: v in ring ==> v.y <= y) || (forall v :: v in ring ==> v.y > y)
  }

  lemma {:induction false} NothingCrossed(prev: Point, ps: seq<Point>, y: real)
    requires OneSided([prev] + ps, y)
    ensures Crossings(prev, ps, y) == []
  {
    if ps != [] {
      var n := |ps| - 1;
      var from := if n == 0 then prev else ps[n - 1];
      assert forall v :: v in [prev] + ps[..n] ==> v in [prev] + ps;
      assert from in [prev] + ps && ps[n] in [prev] + ps;
      NothingCrossed(prev, ps[..n], y);
    }
  }

  // A row no vertex range reaches shows nothing.
  lemma OutsideRange(ring: seq<Point>, p: Pixel)
    requires OneSided(ring, Centre(p).y)
    ensures !Shown(ring, p)
  {
    if ring != [] {
      var q := Centre(p);
      assert forall v :: v in [Last(ring)] + ring ==> v in ring;
      NothingCrossed(Last(ring), ring, q.y);
      BelowIsOdd(Last(ring), ring, q);
    }
  }

  // The region a ring fills: the fill skips rings of fewer than three points.
  predicate Region(ring: seq<Point>, p: Pixel) {
    |ring| >= 3 && Shown(ring, p)
  }

  method VerticalExtent(ring: seq<Point>) returns (ymin: real, ymax: real)
    ensures forall v :: v in ring ==> ymin <= v.y <= ymax
  {
    ymin, ymax := 1000000000000000000.0, -1000000000000000000.0;
    for i := 0 to |ring|
      invariant forall k :: 0 <= k < i ==> ymin <= ring[k].y <= ymax
    {
      if ring[i].y < ymin { ymin := ring[i].y; }
      if ring[i].y > ymax { ymax := ring[i].y; }
    }
  }

  /** The crossings of one scanline, edge by edge from the closing edge on. */
  method RowCrossings(ring: seq<Point>, yc: real) returns (xs: seq<real>)
    requires ring != []
    ensures xs == RingCrossings(ring, yc)
  {
    xs := [];
    var j := |ring| - 1;
    var i := 0;
    while i < |ring|
      invariant 0 <= i <= |ring| && j == (if i == 0 then |ring| - 1 else i - 1)
      invariant xs == Crossings(Last(ring), ring[..i], yc)
    {
      assert ring[..i + 1][..i] == ring[..i];
      var yi, yj := ring[i].y, ring[j].y;
      if (yi <= yc && yj > yc) || (yj <= yc && yi > yc) {
        xs := xs + [XAt(ring[j], ring[i], yc)];
      }
      j := i;
      i := i + 1;
    }
    assert ring[..i] == ring;
  }

  ghost predicate ListsRows(ps: seq<Pixel>, w: int, ring: seq<Point>, y0: int, y: int) {
    forall p: Pixel :: p in ps <==> y0 <= p.1 < y && 0 <= p.0 < w && Shown(ring, p)
  }

  lemma NextRow(ps: seq<Pixel>, more: seq<Pixel>, w: int, ring: seq<Point>, y0: int, y: int, xs: seq<real>)
    requires y0 <= y && ListsRows(ps, w, ring, y0, y)
    requires Sorted(xs) && multiset(xs) == multiset(RingCrossings(ring, y as real + 0.5)) && |xs| % 2 == 0
    requires ListsRow(more, w, y, xs, |xs|)
    ensures ListsRows(ps + more, w, ring, y0, y + 1)
  {
    forall p: Pixel ensures p in ps + more <==> y0 <= p.1 < y + 1 && 0 <= p.0 < w && Shown(ring, p) {
      if p.1 == y { RowShown(ring, xs, p); }
    }
  }

  lemma AllRows(ps: seq<Pixel>, w: int, h: int, ring: seq<Point>, y0: int, y1: int, ymin: real, ymax: real)
    requires |ring| >= 3 && forall v :: v in ring ==> ymin <= v.y <= ymax
    requires y0 == Max(0, ymin.Floor) && (y1 == h - 1 || y1 == Ceil(ymax))
    requires ListsRows(ps, w, ring, y0, y1 + 1) || (y1 + 1 < y0 && ps == [])
    ensures Lists(ps, w, h, p => Region(ring, p))
  {
    forall p | On(w, h, p) ensures p in ps <==> Region(ring, p) {
      if p.1 < y0 || y1 < p.1 {
        OutsideRange(ring, p);
      }
    }
  }

  /** The fill shows exactly the region of the ring, on every row of the canvas. */
  method FillPolygon(buf: array<Color>, w: int, h: int, ring: seq<Point>, color: Color)
    requires Holds(buf.Length, w, h) && 0 < w && 0 < h
    modifies buf
    ensures Painted(old(buf[..]), buf[..], w, h, color, p => Region(ring, p))
  {
    ghost var ps: seq<Pixel> := [];
    if |ring| < 3 {
      assert Lists(ps, w, h, p => Region(ring, p));
      return;
    }
    var ymin, ymax := VerticalExtent(ring);
    var y0, y1 := Max(0, ymin.Floor), Ceil(ymax);
    if h - 1 < y1 { y1 := h - 1; }
    var y := y0;
    while y <= y1
      invariant y0 <= y && (y <= y1 + 1 || y == y0)
      invariant buf[..] == Paint(old(buf[..]), w, h, ps, color)
      invariant ListsRows(ps, w, ring, y0, y)
    {
      var yc := y as real + 0.5;
      var cs := RowCrossings(ring, yc);
      var xs := Sort(cs);
      assert Centre((0, y)).y == yc;
      RowShown(ring, xs, (0, y));
      ghost var more := FillRow(buf, w, h, y, xs, color);
      PaintConcat(old(buf[..]), w, h, ps, more, color);
      NextRow(ps, more, w, ring, y0, y, xs);
      ps := ps + more;
      y := y + 1;
    }
    AllRows(ps, w, h, ring, y0, y1, ymin, ymax);
  }

  lemma CrossingsNext(prev: Point, ps: seq<Point>, y: real)
    requires ps != []
    ensures var n := |ps| - 1;
            var from := if n == 0 then prev else ps[n - 1];
            Crossings(prev, ps, y) == Crossings(prev, ps[..n], y) + (if Crosses(from, ps[n], y) then [XAt(from, ps[n], y)] else [])
  {}

  // An edge crosses a scanline at the same place both ways.
  lemma EdgeBothWays(a: Point, b: Point, y: real)
    ensures Crosses(a, b, y) == Crosses(b, a, y)
    ensures Crosses(a, b, y) ==> XAt(a, b, y) == XAt(b, a, y)
  {
    if Crosses(a, b, y) {
      var u := Parameter(a, b, y);
      LerpFlip(a.x, b.x, u);
      LerpFlip(a.y, b.y, u);
      XAtParameter(b, a, y, 1.0 - u);
    }
  }

  // A ring of fewer than three points encloses nothing.
  lemma ThinRing(ring: seq<Point>, q: Point)
    requires |ring| < 3
    ensures Below(RingCrossings(ring, q.y), q.x) % 2 == 0
  {
    if |ring| == 2 {
      var a, b := ring[0], ring[1];
      assert ring[..1] == [a] && [a][..0] == [];
      CrossingsNext(b, ring, q.y);
      CrossingsNext(b, [a], q.y);
      EdgeBothWays(a, b, q.y);
      var x := XAt(a, b, q.y);
      if Crosses(a, b, q.y) {
        assert RingCrossings(ring, q.y) == [x, x] && [x, x] == [x] + [x] && [x] == [] + [x];
        BelowMore([x], x, q.x);
        BelowMore([], x, q.x);
      }
    } else if |ring| == 1 {
      assert ring[..0] == [];
      CrossingsNext(ring[0], ring, q.y);
    }
  }

  // The even-odd rule, pixel by pixel: off the crossings, a pixel is coloured
  // exactly when an odd number of crossings lie to its left.
  lemma {:induction false} FilledIsOdd(was: seq<Color>, now: seq<Color>, w: int, h: int, ring: seq<Point>, color: Color, p: Pixel)
    requires Holds(|was|, w, h) && On(w, h, p)
    requires Painted(was, now, w, h, color, p => Region(ring, p))
    requires Centre(p).x !in RingCrossings(ring, Centre(p).y)
    ensures 0 <= Offset(w, p) < |now|
    ensures now[Offset(w, p)] ==
            if Below(RingCrossings(ring, Centre(p).y), Centre(p).x) % 2 == 1 then color else was[Offset(w, p)]
  {
    PaintedAt(was, now, w, h, color, p => Region(ring, p), p);
    if |ring| >= 3 {
      OddBelowCounts(RingCrossings(ring, Centre(p).y), Centre(p).x);
      BelowIsOdd(Last(ring), ring, Centre(p));
    } else {
      ThinRing(ring, Centre(p));
    }
  }

  // And on them too: every pixel of the canvas, with at least three vertices. The
  // centre of pixel (x, y) is (x + 1/2, y + 1/2).
  lemma FilledExactly(was: seq<Color>, now: seq<Color>, w: int, h: int, ring: seq<Point>, color: Color, p: Pixel)
    requires Holds(|was|, w, h) && On(w, h, p)
    requires Painted(was, now, w, h, color, p => Region(ring, p))
    ensures 0 <= Offset(w, p) < |now|
    ensures var xs, x := RingCrossings(ring, p.1 as real + 0.5), p.0 as real + 0.5;
            now[Offset(w, p)] == if |ring| >= 3 && (Below(xs, x) % 2 == 1 || x in xs) then color else was[Offset(w, p)]
  {
    PaintedAt(was, now, w, h, color, p => Region(ring, p), p);
    if |ring| >= 3 {
      OddBelowCounts(RingCrossings(ring, Centre(p).y), Centre(p).x);
      BelowIsOdd(Last(ring), ring, Centre(p));
    }
  }

  // The edge from a to b passes height y at x: one end is on or below it, the other
  // above, and (x, y) is on the line through both.
  predicate PassesAt(a: Point, b: Point, x: real, y: real) {
    ((a.y <= y < b.y) || (b.y <= y < a.y)) && (x - a.x) * (b.y - a.y) == (y - a.y) * (b.x - a.x)
  }

  lemma CrossingIsOnLine(a: Point, b: Point, y: real)
    requires Crosses(a, b, y)
    ensures PassesAt(a, b, XAt(a, b, y), y)
  {
    var u := Parameter(a, b, y);
    var dx, dy := b.x - a.x, b.y - a.y;
    assert XAt(a, b, y) - a.x == u * dx && y - a.y == u * dy;
    assert (u * dx) * dy == (u * dy) * dx;
  }

  // The start of the edge that ends at vertex i.
  function StartOf(prev: Point, ps: seq<Point>, i: nat): Point
    requires i < |ps|
  {
    if i == 0 then prev else ps[i - 1]
  }

  predicate EdgePasses(prev: Point, ps: seq<Point>, i: nat, x: real, y: real) {
    i < |ps| && PassesAt(StartOf(prev, ps, i), ps[i], x, y)
  }

  // Both ends are on or below the height, or both above.
  predicate StaysAside(prev: Point, ps: seq<Point>, i: nat, y: real) {
    i < |ps| && (StartOf(prev, ps, i).y <= y <==> ps[i].y <= y)
  }

  // The edges that end at these vertices, in the order of the path, pass the height at
  // these places, and no other edge does.
  predicate ArePassed(prev: Point, ps: seq<Point>, y: real, xs: seq<real>, at: seq<nat>) {
    && |at| == |xs| && (forall j, k :: 0 <= j < k < |at| ==> at[j] < at[k])
    && (forall k :: 0 <= k < |at| ==> EdgePasses(prev, ps, at[k], xs[k], y))
    && (forall i: nat :: i < |ps| ==> i in at || StaysAside(prev, ps, i, y))
  }

  // The last edge alone.
  lemma LastEdge(prev: Point, ps: seq<Point>, y: real)
    requires ps != []
    ensures var n := |ps| - 1;
            var from := StartOf(prev, ps, n);
            if Crosses(from, ps[n], y) then EdgePasses(prev, ps, n, XAt(from, ps[n], y), y) else StaysAside(prev, ps, n, y)
  {
    var n := |ps| - 1;
    if Crosses(StartOf(prev, ps, n), ps[n], y) { CrossingIsOnLine(StartOf(prev, ps, n), ps[n], y); }
    hide PassesAt, XAt;
  }

  lemma EarlierEdges(prev: Point, ps: seq<Point>, y: real, xs: seq<real>, at: seq<nat>)
    requires ps != [] && ArePassed(prev, ps[..|ps| - 1], y, xs, at)
    ensures forall k :: 0 <= k < |at| ==> at[k] < |ps| - 1 && EdgePasses(prev, ps, at[k], xs[k], y)
    ensures forall i: nat :: i < |ps| - 1 ==> i in at || StaysAside(prev, ps, i, y)
  {
    hide PassesAt;
    forall k | 0 <= k < |at| ensures at[k] < |ps| - 1 && EdgePasses(prev, ps, at[k], xs[k], y) {
      assert EdgePasses(prev, ps[..|ps| - 1], at[k], xs[k], y);
    }
    forall i: nat | i < |ps| - 1 && i !in at ensures StaysAside(prev, ps, i, y) {
      assert StaysAside(prev, ps[..|ps| - 1], i, y);
    }
  }

  lemma PassedNext(prev: Point, ps: seq<Point>, y: real, xs: seq<real>, at: seq<nat>, x: real)
    requires ps != [] && ArePassed(prev, ps[..|ps| - 1], y, xs, at)
    ensures var n := |ps| - 1;
            && (StaysAside(prev, ps, n, y) ==> ArePassed(prev, ps, y, xs, at))
            && (EdgePasses(prev, ps, n, x, y) ==> ArePassed(prev, ps, y, xs + [x], at + [n]))
  {
    EarlierEdges(prev, ps, y, xs, at);
    hide EdgePasses, StaysAside;
    var n := |ps| - 1;
    assert (at + [n])[|at|] == n;
    forall i: nat | i < n && i in at ensures i in at + [n] {}
  }

  // The crossings of a height are those of the edges that pass it, each once and in
  // the order of the ring.
  lemma {:induction false} CrossingsAre(prev: Point, ps: seq<Point>, y: real) returns (at: seq<nat>)
    ensures ArePassed(prev, ps, y, Crossings(prev, ps, y), at)
  {
    hide Crosses, XAt, EdgePasses, StaysAside;
    at := [];
    if ps != [] {
      var n := |ps| - 1;
      at := CrossingsAre(prev, ps[..n], y);
      var from := StartOf(prev, ps, n);
      LastEdge(prev, ps, y);
      PassedNext(prev, ps, y, Crossings(prev, ps[..n], y), at, XAt(from, ps[n], y));
      if Crosses(from, ps[n], y) { at := at + [n]; }
    }
  }
}
