// Points, boxes and the Liang-Barsky segment clip shared by the map builder
// (tools/mapdata/build_mapdata.py) and the renderer (toolkit/src/geo/geo.cpp).
// Coordinates are real numbers: rounding is not part of this model.
module Geometry {
  import opened Options
  import opened Reals

  datatype Point = Point(x: real, y: real)

  datatype Box = Box(xmin: real, ymin: real, xmax: real, ymax: real)

  datatype Segment = Segment(a: Point, b: Point)

  predicate InBox(box: Box, p: Point) {
    box.xmin <= p.x <= box.xmax && box.ymin <= p.y <= box.ymax
  }

  // The point of the segment ab at parameter t.
  function At(a: Point, b: Point, t: real): Point {
    Point(Lerp(a.x, b.x, t), Lerp(a.y, b.y, t))
  }

  ghost predicate OnSegment(a: Point, b: Point, p: Point) {
    exists t :: 0.0 <= t <= 1.0 && p == At(a, b, t)
  }

  // One half-plane constraint of the clip, as a bound on the parameter.
  ghost predicate Meets(p: real, q: real, t: real) {
    p * t <= q
  }

  // The first n of the four constraints hold at parameter t.
  ghost predicate Fits(p: seq<real>, q: seq<real>, n: nat, t: real)
    requires n <= |p| == |q|
  {
    n == 0 || (Fits(p, q, n - 1, t) && Meets(p[n - 1], q[n - 1], t))
  }

  // The parameters u0 <= u1 bound exactly the part of ab that lies in the box.
  ghost predicate Visible(a: Point, b: Point, box: Box, u0: real, u1: real) {
    && 0.0 <= u0 <= u1 <= 1.0
    && forall t :: 0.0 <= t <= 1.0 ==> (InBox(box, At(a, b, t)) <==> u0 <= t <= u1)
  }

  // What a clip must answer: nothing when no point of ab is in the box, and
  // otherwise the two end points of the visible part, in the direction of ab.
  ghost predicate IsClip(a: Point, b: Point, box: Box, r: Option<Segment>) {
    match r
    case None => forall t :: 0.0 <= t <= 1.0 ==> !InBox(box, At(a, b, t))
    case Some(s) => exists u0, u1 :: Visible(a, b, box, u0, u1) && s == Segment(At(a, b, u0), At(a, b, u1))
  }

  lemma FitsFour(p: seq<real>, q: seq<real>, t: real)
    requires |p| == |q| == 4
    ensures Fits(p, q, 4, t) <==> Meets(p[0], q[0], t) && Meets(p[1], q[1], t) && Meets(p[2], q[2], t) && Meets(p[3], q[3], t)
  {
    assert Fits(p, q, 1, t) <==> Meets(p[0], q[0], t);
    assert Fits(p, q, 2, t) <==> Fits(p, q, 1, t) && Meets(p[1], q[1], t);
    assert Fits(p, q, 3, t) <==> Fits(p, q, 2, t) && Meets(p[2], q[2], t);
  }

  // A lower and an upper bound on one coordinate, as two constraints.
  lemma MeetsPair(a: real, b: real, lo: real, hi: real, t: real)
    ensures Meets(-(b - a), a - lo, t) <==> lo <= Lerp(a, b, t)
    ensures Meets(b - a, hi - a, t) <==> Lerp(a, b, t) <= hi
  {
    var d := b - a;
    assert (-d) * t == -(t * d) && d * t == t * d;
  }

  lemma FitsAll(a: Point, b: Point, box: Box, p: seq<real>, q: seq<real>)
    requires p == [-(b.x - a.x), b.x - a.x, -(b.y - a.y), b.y - a.y]
    requires q == [a.x - box.xmin, box.xmax - a.x, a.y - box.ymin, box.ymax - a.y]
    ensures forall t :: Fits(p, q, 4, t) <==> InBox(box, At(a, b, t))
  {
    forall t ensures Fits(p, q, 4, t) <==> InBox(box, At(a, b, t)) {
      FitsFour(p, q, t);
      MeetsPair(a.x, b.x, box.xmin, box.xmax, t);
      MeetsPair(a.y, b.y, box.ymin, box.ymax, t);
    }
  }

  lemma FitsMonotone(p: seq<real>, q: seq<real>, m: nat, n: nat, t: real)
    requires m <= n <= |p| == |q| && Fits(p, q, n, t)
    ensures Fits(p, q, m, t)
    decreases n
  {
    if m < n { FitsMonotone(p, q, m, n - 1, t); }
  }

  lemma QuotientBound(p: real, q: real, t: real)
    requires p != 0.0
    ensures Meets(p, q, t) <==> if p > 0.0 then t <= q / p else t >= q / p
  {
    var d := q / p;
    assert q == p * d;
    assert p * t - q == p * (t - d);
    if p > 0.0 {
      if t > d { assert p * (t - d) > 0.0; } else { assert p * (d - t) >= 0.0; }
    } else {
      if t < d { assert p * (t - d) > 0.0; } else { assert p * (d - t) >= 0.0; }
    }
  }

  // The parameter interval [u0, u1] is exactly where the first i constraints hold.
  ghost predicate Bounds(p: seq<real>, q: seq<real>, i: nat, u0: real, u1: real)
    requires i <= |p| == |q|
  {
    && 0.0 <= u0 <= u1 <= 1.0
    && forall t :: 0.0 <= t <= 1.0 ==> (Fits(p, q, i, t) <==> u0 <= t <= u1)
  }

  // When constraint i leaves no parameter, no point of the segment is in the box.
  lemma NothingLeft(a: Point, b: Point, box: Box, p: seq<real>, q: seq<real>, i: nat, u0: real, u1: real)
    requires i < |p| == |q| == 4 && Bounds(p, q, i, u0, u1)
    requires forall t :: u0 <= t <= u1 ==> !Meets(p[i], q[i], t)
    requires forall t :: Fits(p, q, 4, t) <==> InBox(box, At(a, b, t))
    ensures IsClip(a, b, box, None)
  {
    forall t | 0.0 <= t <= 1.0 ensures !InBox(box, At(a, b, t)) {
      if Fits(p, q, 4, t) {
        FitsMonotone(p, q, i + 1, 4, t);
      }
    }
  }

  /** The clip loop: `u0`/`u1` always bound the parameters that satisfy the
      constraints seen so far, so it fails exactly when none is left. */
  method ClipSegment(a: Point, b: Point, box: Box) returns (r: Option<Segment>)
    ensures IsClip(a, b, box, r)
  {
    var dx, dy := b.x - a.x, b.y - a.y;
    var p := [-dx, dx, -dy, dy];
    var q := [a.x - box.xmin, box.xmax - a.x, a.y - box.ymin, box.ymax - a.y];
    FitsAll(a, b, box, p, q);
    var u0, u1 := 0.0, 1.0;
    for i := 0 to 4
      invariant Bounds(p, q, i, u0, u1)
    {
      if p[i] == 0.0 {
        if q[i] < 0.0 {
          NothingLeft(a, b, box, p, q, i, u0, u1);
          return None;
        }
      } else {
        var t := q[i] / p[i];
        forall s: real ensures Meets(p[i], q[i], s) <==> if p[i] > 0.0 then s <= t else s >= t {
          QuotientBound(p[i], q[i], s);
        }
        if p[i] < 0.0 {
          if t > u1 {
            NothingLeft(a, b, box, p, q, i, u0, u1);
            return None;
          }
          if t > u0 { u0 := t; }
        } else {
          if t < u0 {
            NothingLeft(a, b, box, p, q, i, u0, u1);
            return None;
          }
          if t < u1 { u1 := t; }
        }
      }
    }
    assert Visible(a, b, box, u0, u1);
    r := Some(Segment(At(a, b, u0), At(a, b, u1)));
  }
}
