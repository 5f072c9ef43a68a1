// The even-odd rule: which points a closed ring encloses. The renderer fills by
// it (toolkit/src/map/map_renderer.cpp) and the map builder's polygon clip must
// respect it (tools/mapdata/build_mapdata.py).
module EvenOdd {
  import opened Geometry
  import opened Reals

  // The half-open rule: an edge crosses the scanline at height y when exactly
  // one of its ends is on or below it.
  predicate Crosses(a: Point, b: Point, y: real) {
    (a.y <= y) != (b.y <= y)
  }

  // Where the edge from a to b meets the scanline.
  function XAt(a: Point, b: Point, y: real): real
  {
    Lerp(b.x, a.x, Ratio(b.y, a.y, y))
  }

  // The edge crosses the scanline of q, strictly left of q or else not.
  predicate CrossesBeside(left: bool, a: Point, b: Point, q: Point) {
    Crosses(a, b, q.y) && (XAt(a, b, q.y) < q.x) == left
  }

  // Whether the path prev, ps[0], ps[1], ... crosses beside q an odd number of times.
  predicate PathOdd(left: bool, prev: Point, ps: seq<Point>, q: Point)
    decreases |ps|
  {
    ps != [] && CrossesBeside(left, prev, ps[0], q) != PathOdd(left, ps[0], ps[1..], q)
  }

  function Last<T>(s: seq<T>): T
    requires s != []
  {
    s[|s| - 1]
  }

  predicate Encloses(ring: seq<Point>, q: Point) {
    ring != [] && PathOdd(true, Last(ring), ring, q)
  }

  // A path crosses a scanline an odd number of times exactly when its ends lie
  // on different sides; so a closed ring crosses it an even number of times.
  lemma {:induction false} PathEnds(prev: Point, ps: seq<Point>, q: Point)
    requires ps != []
    ensures PathOdd(true, prev, ps, q) != PathOdd(false, prev, ps, q) <==> Crosses(prev, Last(ps), q.y)
    decreases |ps|
  {
    if |ps| > 1 {
      PathEnds(ps[0], ps[1..], q);
    } else {
      assert ps[1..] == [];
    }
  }

  // So the side on which crossings are counted does not matter.
  lemma {:induction false} EitherSide(ring: seq<Point>, q: Point)
    requires ring != []
    ensures Encloses(ring, q) <==> PathOdd(false, Last(ring), ring, q)
  {
    PathEnds(Last(ring), ring, q);
  }

  lemma {:induction false} PathConcat(left: bool, prev: Point, ps: seq<Point>, rs: seq<Point>, q: Point)
    requires ps != []
    ensures PathOdd(left, prev, ps + rs, q) <==> PathOdd(left, prev, ps, q) != PathOdd(left, Last(ps), rs, q)
    decreases |ps|
  {
    var all := ps + rs;
    assert all[1..] == ps[1..] + rs;
    if |ps| > 1 {
      PathConcat(left, ps[0], ps[1..], rs, q);
    } else {
      assert ps[1..] == [] && all[1..] == rs;
    }
  }

  // XAt is where the line through a and b meets the scanline: it is the x of the
  // point of the edge at the parameter that reaches height y.
  lemma {:induction false} XAtParameter(a: Point, b: Point, y: real, u: real)
    requires a.y != b.y && At(a, b, u).y == y
    ensures XAt(a, b, y) == At(a, b, u).x
  {
    var v := Ratio(b.y, a.y, y);
    RatioReaches(b.y, a.y, y);
    LerpFlip(a.y, b.y, v);
    LerpFlip(a.x, b.x, v);
    LerpInjective(a.y, b.y, u, 1.0 - v);
  }

  lemma Parameter(a: Point, b: Point, y: real) returns (u: real)
    requires Crosses(a, b, y)
    ensures 0.0 <= u <= 1.0 && At(a, b, u).y == y && XAt(a, b, y) == At(a, b, u).x
  {
    u := Ratio(a.y, b.y, y);
    RatioUnit(a.y, b.y, y);
    RatioReaches(a.y, b.y, y);
    XAtParameter(a, b, y, u);
  }
}
