// The Sutherland-Hodgman ring clip of the map builder
// (tools/mapdata/build_mapdata.py): four passes, one per side of the box.
module ClipPolygon {
  import opened Geometry
  import opened Reals
  import opened EvenOdd

  // One pass: the half-plane it keeps.
  datatype Half = XMin(v: real) | XMax(v: real) | YMin(v: real) | YMax(v: real) {

    predicate Keeps(p: Point) {
      match this
      case XMin(v) => p.x >= v
      case XMax(v) => p.x <= v
      case YMin(v) => p.y >= v
      case YMax(v) => p.y <= v
    }

    // On the line that bounds the half-plane.
    predicate Border(p: Point) {
      if XMin? || XMax? then p.x == v else p.y == v
    }

    // Where segment ab meets that line.
    function Meet(a: Point, b: Point): Point {
      if XMin? || XMax? then
        Point(v, Lerp(a.y, b.y, Ratio(a.x, b.x, v)))
      else
        Point(Lerp(a.x, b.x, Ratio(a.y, b.y, v)), v)
    }
  }

  // What one edge of the ring adds to the output of a pass.
  function Emit(h: Half, prev: Point, cur: Point): seq<Point> {
    if h.Keeps(cur) then (if h.Keeps(prev) then [cur] else [h.Meet(prev, cur), cur])
    else if h.Keeps(prev) then [h.Meet(prev, cur)]
    else []
  }

  function Walk(h: Half, prev: Point, ps: seq<Point>): seq<Point>
    decreases |ps|
  {
    if ps == [] then [] else Emit(h, prev, ps[0]) + Walk(h, ps[0], ps[1..])
  }

  function Pass(h: Half, ring: seq<Point>): seq<Point> {
    if ring == [] then [] else Walk(h, Last(ring), ring)
  }

  lemma {:induction false} WalkSnoc(h: Half, prev: Point, ps: seq<Point>, cur: Point)
    ensures Walk(h, prev, ps + [cur]) == Walk(h, prev, ps) + Emit(h, if ps == [] then prev else Last(ps), cur)
    decreases |ps|
  {
    var all := ps + [cur];
    if ps == [] {
      assert all[1..] == [];
    } else {
      assert all[1..] == ps[1..] + [cur];
      WalkSnoc(h, ps[0], ps[1..], cur);
    }
  }

  /** One pass, as the source runs it over the ring. */
  method ClipEdge(ring: seq<Point>, h: Half) returns (out: seq<Point>)
    ensures out == Pass(h, ring)
  {
    if ring == [] {
      return [];
    }
    out := [];
    var prev := Last(ring);
    var prevIn := h.Keeps(prev);
    var i := 0;
    while i < |ring|
      invariant 0 <= i <= |ring| && prev == (if i == 0 then Last(ring) else ring[i - 1])
      invariant prevIn == h.Keeps(prev)
      invariant out == Walk(h, Last(ring), ring[..i])
    {
      var cur := ring[i];
      var curIn := h.Keeps(cur);
      WalkSnoc(h, Last(ring), ring[..i], cur);
      assert ring[..i + 1] == ring[..i] + [cur];
      if curIn {
        if !prevIn {
          out := out + [h.Meet(prev, cur)];
        }
        out := out + [cur];
      } else if prevIn {
        out := out + [h.Meet(prev, cur)];
      }
      prev, prevIn := cur, curIn;
      i := i + 1;
    }
    assert ring[..i] == ring;
  }

  // ---- where the vertices come from

  // The crossing point lies on the edge and on the border.
  lemma {:induction false} MeetOnEdge(h: Half, a: Point, b: Point) returns (t: real)
    requires h.Keeps(a) != h.Keeps(b)
    ensures 0.0 <= t <= 1.0 && h.Meet(a, b) == At(a, b, t) && h.Border(h.Meet(a, b))
  {
    if h.XMin? || h.XMax? {
      RatioUnit(a.x, b.x, h.v);
      RatioReaches(a.x, b.x, h.v);
      t := Ratio(a.x, b.x, h.v);
    } else {
      RatioUnit(a.y, b.y, h.v);
      RatioReaches(a.y, b.y, h.v);
      t := Ratio(a.y, b.y, h.v);
    }
  }

  // v is vertex k of the path, or lies on the edge that ends there.
  ghost predicate FromEdge(prev: Point, ps: seq<Point>, k: nat, v: Point)
    requires k < |ps|
  {
    v == ps[k] || OnSegment(if k == 0 then prev else ps[k - 1], ps[k], v)
  }

  // v is a vertex of the ring, or lies on one of its edges (closing edge included).
  ghost predicate FromRing(prev: Point, ps: seq<Point>, v: Point) {
    exists k :: 0 <= k < |ps| && FromEdge(prev, ps, k, v)
  }

  lemma EmitFrom(h: Half, prev: Point, cur: Point, v: Point)
    requires v in Emit(h, prev, cur)
    ensures h.Keeps(v) && (v == cur || OnSegment(prev, cur, v))
  {
    if h.Keeps(prev) != h.Keeps(cur) {
      var t := MeetOnEdge(h, prev, cur);
    }
  }

  lemma {:induction false} WalkFrom(h: Half, prev: Point, ps: seq<Point>, v: Point)
    requires v in Walk(h, prev, ps)
    ensures h.Keeps(v) && FromRing(prev, ps, v)
    decreases |ps|
  {
    if v in Emit(h, prev, ps[0]) {
      EmitFrom(h, prev, ps[0], v);
      assert FromEdge(prev, ps, 0, v);
    } else {
      WalkFrom(h, ps[0], ps[1..], v);
      var k :| 0 <= k < |ps[1..]| && FromEdge(ps[0], ps[1..], k, v);
      assert FromEdge(prev, ps, k + 1, v);
    }
  }

  // What a pass puts out: the vertices inside and one crossing for every edge that
  // changes sides, nothing twice.
  function Inside(h: Half, ps: seq<Point>): nat {
    if ps == [] then 0 else Inside(h, ps[..|ps| - 1]) + (if h.Keeps(Last(ps)) then 1 else 0)
  }

  function Cuts(h: Half, prev: Point, ps: seq<Point>): nat {
    if ps == [] then 0
    else
      var n := |ps| - 1;
      Cuts(h, prev, ps[..n]) + (if h.Keeps(if n == 0 then prev else ps[n - 1]) != h.Keeps(ps[n]) then 1 else 0)
  }

  lemma {:induction false} WalkSize(h: Half, prev: Point, ps: seq<Point>)
    ensures |Walk(h, prev, ps)| == Inside(h, ps) + Cuts(h, prev, ps)
  {
    if ps != [] {
      var n := |ps| - 1;
      WalkSize(h, prev, ps[..n]);
      WalkSnoc(h, prev, ps[..n], ps[n]);
      assert ps == ps[..n] + [ps[n]];
    }
  }

  // A pass keeps every half-plane its input already lies in.
  lemma {:induction false} WalkKeeps(h: Half, g: Half, prev: Point, ps: seq<Point>, v: Point)
    requires g.Keeps(prev) && (forall p :: p in ps ==> g.Keeps(p))
    requires v in Walk(h, prev, ps)
    ensures g.Keeps(v)
  {
    WalkFrom(h, prev, ps, v);
    var k :| 0 <= k < |ps| && FromEdge(prev, ps, k, v);
    assert g.Keeps(ps[k]);
    if v != ps[k] {
      var a := if k == 0 then prev else ps[k - 1];
      var t :| 0.0 <= t <= 1.0 && v == At(a, ps[k], t);
      KeepsBetween(g, a, ps[k], t);
    }
  }

  lemma KeepsBetween(g: Half, a: Point, b: Point, t: real)
    requires g.Keeps(a) && g.Keeps(b) && 0.0 <= t <= 1.0
    ensures g.Keeps(At(a, b, t))
  {
    AtBetween(a, b, t);
  }

  lemma AtBetween(a: Point, b: Point, t: real)
    requires 0.0 <= t <= 1.0
    ensures Min(a.x, b.x) <= At(a, b, t).x <= Max(a.x, b.x)
    ensures Min(a.y, b.y) <= At(a, b, t).y <= Max(a.y, b.y)
  {
    Between(a.x, b.x, Min(a.x, b.x), Max(a.x, b.x), t);
    Between(a.y, b.y, Min(a.y, b.y), Max(a.y, b.y), t);
  }

  function Min(a: real, b: real): real { if a <= b then a else b }

  function Max(a: real, b: real): real { if a <= b then b else a }

  // A ring that lies in the half-plane is not changed.
  lemma {:induction false} WalkInside(h: Half, prev: Point, ps: seq<Point>)
    requires h.Keeps(prev) && (forall p :: p in ps ==> h.Keeps(p))
    ensures Walk(h, prev, ps) == ps
    decreases |ps|
  {
    if ps != [] {
      WalkInside(h, ps[0], ps[1..]);
    }
  }

  // ---- a pass keeps the even-odd meaning of the ring

  // q lies strictly inside the half-plane.
  predicate Strictly(h: Half, q: Point) {
    h.Keeps(q) && !h.Border(q)
  }

  // The side on which crossings are counted: away from the border.
  predicate CountLeft(h: Half) { !h.XMin? }

  // An edge with no point strictly inside never crosses beside q.
  lemma {:induction false} OutsideNoCross(h: Half, a: Point, b: Point, q: Point)
    requires Strictly(h, q)
    requires !Strictly(h, a) && !Strictly(h, b)
    ensures !CrossesBeside(CountLeft(h), a, b, q)
  {
    if Crosses(a, b, q.y) {
      var u := Parameter(a, b, q.y);
      AtBetween(a, b, u);
    }
  }

  // Cutting an edge at one of its points splits its crossings.
  lemma {:induction false} SplitEdge(left: bool, a: Point, b: Point, t: real, q: Point)
    requires 0.0 <= t <= 1.0
    ensures CrossesBeside(left, a, b, q) <==> CrossesBeside(left, a, At(a, b, t), q) != CrossesBeside(left, At(a, b, t), b, q)
  {
    var m := At(a, b, t);
    AtBetween(a, b, t);
    LerpEnds(a.x, b.x, t);
    LerpEnds(a.y, b.y, t);
    if Crosses(a, m, q.y) {
      SameLine(a, b, a, m, 0.0, t, q.y);
    }
    if Crosses(m, b, q.y) {
      SameLine(a, b, m, b, t, 1.0, q.y);
    }
  }

  // A part of an edge that crosses the scanline does so where the edge does.
  lemma SameLine(a: Point, b: Point, c: Point, d: Point, tc: real, td: real, y: real)
    requires c == At(a, b, tc) && d == At(a, b, td)
    requires Crosses(c, d, y)
    ensures a.y != b.y && XAt(c, d, y) == XAt(a, b, y)
  {
    if a.y == b.y {
      LerpEnds(a.y, a.y, tc);
      LerpEnds(a.y, a.y, td);
    }
    var u := Parameter(c, d, y);
    LerpLerp(a.y, b.y, tc, td, u);
    LerpLerp(a.x, b.x, tc, td, u);
    XAtParameter(a, b, y, Lerp(tc, td, u));
  }

  // w is where the output path stands while the input path stands at prev.
  predicate Follows(h: Half, prev: Point, w: Point) {
    if h.Keeps(prev) then w == prev else h.Border(w)
  }

  lemma ShortPaths(left: bool, w: Point, m: Point, c: Point, q: Point)
    ensures PathOdd(left, w, [c], q) == CrossesBeside(left, w, c, q)
    ensures PathOdd(left, w, [m, c], q) == (CrossesBeside(left, w, m, q) != CrossesBeside(left, m, c, q))
  {
    assert [c][1..] == [] && [m, c][1..] == [c];
    assert PathOdd(left, m, [c], q) == CrossesBeside(left, m, c, q);
  }

  lemma {:induction false} EmitParity(h: Half, prev: Point, w: Point, cur: Point, q: Point)
    requires Strictly(h, q) && Follows(h, prev, w)
    ensures var e := Emit(h, prev, cur);
            && PathOdd(CountLeft(h), w, e, q) == CrossesBeside(CountLeft(h), prev, cur, q)
            && Follows(h, cur, if e == [] then w else Last(e))
  {
    var left, m := CountLeft(h), h.Meet(prev, cur);
    ShortPaths(left, w, m, if h.Keeps(cur) then cur else m, q);
    if h.Keeps(prev) != h.Keeps(cur) {
      var t := MeetOnEdge(h, prev, cur);
      SplitEdge(left, prev, cur, t, q);
      if h.Keeps(cur) {
        OutsideNoCross(h, prev, m, q);
        OutsideNoCross(h, w, m, q);
      } else {
        OutsideNoCross(h, m, cur, q);
      }
    } else if !h.Keeps(cur) {
      OutsideNoCross(h, prev, cur, q);
    }
  }

  lemma {:induction false} WalkParity(h: Half, prev: Point, w: Point, ps: seq<Point>, q: Point)
    requires Strictly(h, q) && Follows(h, prev, w)
    ensures var o := Walk(h, prev, ps);
            && PathOdd(CountLeft(h), w, o, q) == PathOdd(CountLeft(h), prev, ps, q)
            && (ps != [] ==> Follows(h, Last(ps), if o == [] then w else Last(o)))
    decreases |ps|
  {
    if ps != [] {
      var e, rest := Emit(h, prev, ps[0]), Walk(h, ps[0], ps[1..]);
      var w' := if e == [] then w else Last(e);
      EmitParity(h, prev, w, ps[0], q);
      WalkParity(h, ps[0], w', ps[1..], q);
      if e == [] {
        assert e + rest == rest;
      } else {
        PathConcat(CountLeft(h), w, e, rest, q);
      }
    }
  }

  // A point strictly inside the half-plane is enclosed by the clipped ring
  // exactly when the ring encloses it.
  lemma {:induction false} PassEncloses(h: Half, ring: seq<Point>, q: Point)
    requires Strictly(h, q)
    ensures Encloses(Pass(h, ring), q) <==> Encloses(ring, q)
  {
    if ring != [] {
      var out := Pass(h, ring);
      var w := if out != [] then Last(out) else if h.Keeps(Last(ring)) then Last(ring) else BorderPoint(h);
      if out != [] { LastFollows(h, ring); }
      WalkParity(h, Last(ring), w, ring, q);
      EitherSide(ring, q);
      if out != [] { EitherSide(out, q); }
    }
  }

  function BorderPoint(h: Half): Point {
    if h.XMin? || h.XMax? then Point(h.v, 0.0) else Point(0.0, h.v)
  }

  // The output ring closes where the input ring does.
  lemma {:induction false} LastFollows(h: Half, ring: seq<Point>)
    requires ring != [] && Pass(h, ring) != []
    ensures Follows(h, Last(ring), Last(Pass(h, ring)))
  {
    WalkLast(h, Last(ring), ring);
  }

  lemma {:induction false} WalkLast(h: Half, prev: Point, ps: seq<Point>)
    requires ps != []
    ensures var o := Walk(h, prev, ps);
            if o != [] then Follows(h, Last(ps), Last(o)) else !h.Keeps(prev) && !h.Keeps(Last(ps))
    decreases |ps|
  {
    var e, rest := Emit(h, prev, ps[0]), Walk(h, ps[0], ps[1..]);
    if h.Keeps(prev) != h.Keeps(ps[0]) {
      var t := MeetOnEdge(h, prev, ps[0]);
    }
    if |ps| > 1 {
      WalkLast(h, ps[0], ps[1..]);
    } else {
      assert rest == [];
    }
    if rest == [] { assert e + rest == e; } else { assert Last(e + rest) == Last(rest); }
  }

  // ---- the four passes

  function Ring4(ring: seq<Point>, box: Box): seq<Point> {
    Pass(YMax(box.ymax), Pass(YMin(box.ymin), Pass(XMax(box.xmax), Pass(XMin(box.xmin), ring))))
  }

  predicate AllKeep(h: Half, ring: seq<Point>) {
    forall p :: p in ring ==> h.Keeps(p)
  }

  lemma PassKeeps(h: Half, ring: seq<Point>)
    ensures AllKeep(h, Pass(h, ring))
    ensures AllKeep(h, ring) ==> Pass(h, ring) == ring
  {
    forall v | v in Pass(h, ring) ensures h.Keeps(v) {
      WalkFrom(h, Last(ring), ring, v);
    }
    if AllKeep(h, ring) && ring != [] {
      WalkInside(h, Last(ring), ring);
    }
  }

  lemma PassPreserves(h: Half, g: Half, ring: seq<Point>)
    requires AllKeep(g, ring)
    ensures AllKeep(g, Pass(h, ring))
  {
    forall v | v in Pass(h, ring) ensures g.Keeps(v) {
      WalkKeeps(h, g, Last(ring), ring, v);
    }
  }

  lemma Ring4Keeps(points: seq<Point>, box: Box)
    ensures var r := Ring4(points, box);
            && AllKeep(XMin(box.xmin), r) && AllKeep(XMax(box.xmax), r)
            && AllKeep(YMin(box.ymin), r) && AllKeep(YMax(box.ymax), r)
    ensures (forall p :: p in points ==> InBox(box, p)) ==> Ring4(points, box) == points
  {
    var a := Pass(XMin(box.xmin), points);
    var b := Pass(XMax(box.xmax), a);
    var c := Pass(YMin(box.ymin), b);
    PassKeeps(XMin(box.xmin), points);
    PassKeeps(XMax(box.xmax), a);
    PassPreserves(XMax(box.xmax), XMin(box.xmin), a);
    PassKeeps(YMin(box.ymin), b);
    PassPreserves(YMin(box.ymin), XMin(box.xmin), b);
    PassPreserves(YMin(box.ymin), XMax(box.xmax), b);
    PassKeeps(YMax(box.ymax), c);
    PassPreserves(YMax(box.ymax), XMin(box.xmin), c);
    PassPreserves(YMax(box.ymax), XMax(box.xmax), c);
    PassPreserves(YMax(box.ymax), YMin(box.ymin), c);
  }

  /** The whole clip: every vertex lies in the box, and a ring already inside it
      comes back unchanged. */
  method ClipPolygon(points: seq<Point>, box: Box) returns (ring: seq<Point>)
    ensures ring == Ring4(points, box)
    ensures forall p :: p in ring ==> InBox(box, p)
    ensures (forall p :: p in points ==> InBox(box, p)) ==> ring == points
  {
    ring := ClipEdge(points, XMin(box.xmin));
    ring := ClipEdge(ring, XMax(box.xmax));
    ring := ClipEdge(ring, YMin(box.ymin));
    ring := ClipEdge(ring, YMax(box.ymax));
    Ring4Keeps(points, box);
  }

  predicate StrictlyInBox(box: Box, q: Point) {
    box.xmin < q.x < box.xmax && box.ymin < q.y < box.ymax
  }

  // The clip does not change what the ring encloses strictly inside the box.
  lemma {:induction false} ClipKeepsInterior(points: seq<Point>, box: Box, q: Point)
    requires StrictlyInBox(box, q)
    ensures Encloses(Ring4(points, box), q) <==> Encloses(points, q)
  {
    var a := Pass(XMin(box.xmin), points);
    var b := Pass(XMax(box.xmax), a);
    var c := Pass(YMin(box.ymin), b);
    PassEncloses(XMin(box.xmin), points, q);
    PassEncloses(XMax(box.xmax), a, q);
    PassEncloses(YMin(box.ymin), b, q);
    PassEncloses(YMax(box.ymax), c, q);
  }

  lemma {:induction false} NothingBeside(h: Half, prev: Point, ps: seq<Point>, q: Point)
    requires !Strictly(h, prev) && (forall p :: p in ps ==> !Strictly(h, p)) && Strictly(h, q)
    ensures !PathOdd(CountLeft(h), prev, ps, q)
    decreases |ps|
  {
    if ps != [] {
      OutsideNoCross(h, prev, ps[0], q);
      NothingBeside(h, ps[0], ps[1..], q);
    }
  }

  // The half-plane that lies on the other side of the same border.
  function Beyond(h: Half): Half {
    match h
    case XMin(v) => XMax(v)
    case XMax(v) => XMin(v)
    case YMin(v) => YMax(v)
    case YMax(v) => YMin(v)
  }

  lemma BeyondNotEnclosed(h: Half, ring: seq<Point>, q: Point)
    requires AllKeep(h, ring) && !h.Keeps(q)
    ensures !Encloses(ring, q)
  {
    if ring != [] {
      assert Last(ring) in ring;
      NothingBeside(Beyond(h), Last(ring), ring, q);
      EitherSide(ring, q);
    }
  }

  // And the clipped ring encloses nothing outside the box.
  lemma {:induction false} ClipEnclosesInBox(points: seq<Point>, box: Box, q: Point)
    requires !InBox(box, q)
    ensures !Encloses(Ring4(points, box), q)
  {
    var ring := Ring4(points, box);
    Ring4Keeps(points, box);
    var h := if q.x < box.xmin then XMin(box.xmin) else if q.x > box.xmax then XMax(box.xmax)
             else if q.y < box.ymin then YMin(box.ymin) else YMax(box.ymax);
    BeyondNotEnclosed(h, ring, q);
  }
}
