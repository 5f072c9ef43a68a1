// The base map (toolkit/src/map/map_renderer.cpp): sea, land, coast and borders on
// one canvas. Where a map point falls on the canvas and what the view culls rest on
// trigonometry and are parameters.
module Renderer {
  import opened Ints
  import opened Canvas
  import opened Geometry
  import opened Options
  import opened Fill
  import L = Line
  import R = Rmap

  datatype Viewport = Viewport(width: int, height: int, cx: int, cy: int, radius: int,
                               lat: real, lon: real, range: real, mercator: bool)

  datatype Style = Style(sea: Color, land: Color, coast: Color, border: Color, dashed: bool, cull: bool)

  datatype Geo = Geo(project: (Viewport, R.VectorMap, R.QPoint) -> Pixel,
                     inView: (Viewport, R.VectorMap, R.Polyline) -> bool)

  const COAST := 0
  const BORDER := 1
  const LAND := 4

  // What is drawn: where, of which map, how.
  datatype Scene = Scene(g: Geo, vp: Viewport, map_: R.VectorMap, style: Style) {
    predicate Drawable() { map_.valid && vp.width > 0 && vp.height > 0 && vp.radius > 0 }

    function Project(q: R.QPoint): Point {
      var p := g.project(vp, map_, q);
      Point(p.0 as real, p.1 as real)
    }

    function Ring(poly: R.Polyline): seq<Point> {
      seq(|poly.points|, i requires 0 <= i < |poly.points| => Project(poly.points[i]))
    }

    predicate Sees(poly: R.Polyline) { !style.cull || g.inView(vp, map_, poly) }

    function CanvasBox(): Box { Box(0.0, 0.0, vp.width as real - 1.0, vp.height as real - 1.0) }

    function MaskOf(dashed: bool): L.Mask { L.Mask(!vp.mercator, dashed, vp.cx, vp.cy, vp.radius) }

    // The pixels of a clipped segment.
    function LinePixels(s: Segment, dashed: bool): seq<Pixel> {
      var e := L.Ends(Round(s.a.x), Round(s.a.y), Round(s.b.x), Round(s.b.y));
      L.Drawn(e, L.Mask(!vp.mercator, dashed, vp.cx, vp.cy, vp.radius), e.Steps() + 1)
    }

    // The part of segment i of a polyline that is inside the canvas has a pixel at p.
    ghost predicate SegmentShows(poly: R.Polyline, i: nat, dashed: bool, p: Pixel)
      requires 1 <= i < |poly.points|
    {
      var box := Box(0.0, 0.0, vp.width as real - 1.0, vp.height as real - 1.0);
      exists s :: IsClip(Project(poly.points[i - 1]), Project(poly.points[i]), box, Some(s)) && p in LinePixels(s, dashed)
    }

    ghost predicate PolylineShows(poly: R.Polyline, n: nat, dashed: bool, p: Pixel)
      requires n <= |poly.points|
    {
      exists i :: 1 <= i < n && SegmentShows(poly, i, dashed, p)
    }

    ghost predicate LinesShow(lines: seq<R.Polyline>, n: nat, dashed: bool, p: Pixel)
      requires n <= |lines|
    {
      exists k :: 0 <= k < n && (style.cull ==> g.inView(vp, map_, lines[k])) && PolylineShows(lines[k], |lines[k].points|, dashed, p)
    }

    ghost predicate LandShows(rings: seq<R.Polyline>, n: nat, p: Pixel)
      requires n <= |rings|
    {
      exists k :: 0 <= k < n && (style.cull ==> g.inView(vp, map_, rings[k])) && Region(Ring(rings[k]), p)
    }

    // The lines of a layer of the map, if it has one.
    function Lines(id: int): seq<R.Polyline> {
      var l := LayerOf(map_.layers, id);
      if l.Some? then l.value.polylines else []
    }

    // Sea and land under a pixel, or the background.
    ghost function GroundAt(p: Pixel, background: Color): Color {
      var land := LayerOf(map_.layers, 4);
      if !vp.mercator || land.None? then background
      else if LandShows(land.value.polylines, |land.value.polylines|, p) then style.land else style.sea
    }

    // The colour of a pixel of the base map over a background: borders win over
    // coasts, both over land, land over sea.
    ghost function ColorAt(p: Pixel, background: Color): Color {
      if LinesShow(Lines(1), |Lines(1)|, style.dashed, p) then style.border
      else if LinesShow(Lines(0), |Lines(0)|, false, p) then style.coast
      else GroundAt(p, background)
    }
  }

  // Half away from zero.
  function Round(x: real): int { if x >= 0.0 then (x + 0.5).Floor else -((0.5 - x).Floor) }

  // The first layer with this id.
  function LayerOf(layers: seq<R.Layer>, id: int): Option<R.Layer> {
    if layers == [] then None else if layers[0].id == id then Some(layers[0]) else LayerOf(layers[1..], id)
  }

  lemma {:induction false} LayerOfIs(layers: seq<R.Layer>, id: int) returns (i: nat)
    ensures i <= |layers| && forall k :: 0 <= k < i ==> layers[k].id != id
    ensures LayerOf(layers, id) == if i < |layers| then Some(layers[i]) else None
    ensures i < |layers| ==> layers[i].id == id
  {
    if layers == [] || layers[0].id == id {
      i := 0;
    } else {
      i := LayerOfIs(layers[1..], id);
      i := i + 1;
    }
  }

  // The nearest pixel, halves away from zero.
  lemma RoundIs(x: real)
    ensures if x >= 0.0 then Round(x) as real - 0.5 <= x < Round(x) as real + 0.5
            else Round(x) as real - 0.5 < x <= Round(x) as real + 0.5
  {}

  // A vertex of a ring or line stands where its map point falls on the canvas.
  lemma RingIs(s: Scene, poly: R.Polyline, i: nat)
    requires i < |poly.points|
    ensures var (x, y) := s.g.project(s.vp, s.map_, poly.points[i]);
            |s.Ring(poly)| == |poly.points| && s.Ring(poly)[i] == Point(x as real, y as real) == s.Project(poly.points[i])
  {}

  function Cell(buf: seq<Color>, w: int, h: int, p: Pixel): Color
    requires Holds(|buf|, w, h) && On(w, h, p)
  {
    OffsetInside(|buf|, w, h, p);
    buf[Offset(w, p)]
  }

  // The cells past the canvas are as they were.
  ghost predicate SameTail(was: seq<Color>, now: seq<Color>, w: int, h: int) {
    && |now| == |was|
    && (w > 0 && h > 0 ==> forall i :: 0 <= i < |was| && w * h <= i ==> now[i] == was[i])
  }

  // The canvas shows a region in one colour over what it showed before.
  ghost predicate Coloured(was: seq<Color>, now: seq<Color>, w: int, h: int, color: Color, region: Pixel -> bool)
    requires Holds(|was|, w, h)
  {
    && SameTail(was, now, w, h)
    && forall p :: On(w, h, p) ==> Cell(now, w, h, p) == if region(p) then color else Cell(was, w, h, p)
  }

  lemma PaintColours(was: seq<Color>, w: int, h: int, ps: seq<Pixel>, color: Color)
    requires Holds(|was|, w, h)
    ensures Coloured(was, Paint(was, w, h, ps, color), w, h, color, p => p in ps)
  {
    forall p | On(w, h, p) ensures Cell(Paint(was, w, h, ps, color), w, h, p) == if p in ps then color else Cell(was, w, h, p) {
      PaintAt(was, w, h, ps, color, p);
    }
    forall i | 0 <= i < |was| && w > 0 && h > 0 && w * h <= i ensures Paint(was, w, h, ps, color)[i] == was[i] {
      forall p | p in ps && On(w, h, p) ensures Offset(w, p) != i { OffsetInside(w * h, w, h, p); }
      PaintElsewhere(was, w, h, ps, color, i);
    }
  }

  lemma PaintedColours(was: seq<Color>, now: seq<Color>, w: int, h: int, color: Color, region: Pixel -> bool)
    requires Holds(|was|, w, h) && Painted(was, now, w, h, color, region)
    ensures Coloured(was, now, w, h, color, region)
  {
    var ps :| Lists(ps, w, h, region) && now == Paint(was, w, h, ps, color);
    PaintColours(was, w, h, ps, color);
  }

  lemma ColouredMore(a: seq<Color>, b: seq<Color>, c: seq<Color>, w: int, h: int, color: Color,
                     first: Pixel -> bool, then_: Pixel -> bool, both: Pixel -> bool)
    requires Holds(|a|, w, h) && Coloured(a, b, w, h, color, first) && Coloured(b, c, w, h, color, then_)
    requires forall p :: both(p) <==> first(p) || then_(p)
    ensures Coloured(a, c, w, h, color, both)
  {}

  // ---- drawing

  method FindLayer(map_: R.VectorMap, id: int) returns (r: Option<R.Layer>)
    ensures r == LayerOf(map_.layers, id)
  {
    var i := 0;
    while i < |map_.layers|
      invariant i <= |map_.layers| && LayerOf(map_.layers, id) == LayerOf(map_.layers[i..], id)
    {
      if map_.layers[i].id == id {
        return Some(map_.layers[i]);
      }
      i := i + 1;
    }
    r := None;
  }

  method FillSea(buf: array<Color>, w: int, h: int, color: Color)
    requires w > 0 && h > 0 && Holds(buf.Length, w, h)
    modifies buf
    ensures Coloured(old(buf[..]), buf[..], w, h, color, p => true)
  {
    ProductMonotone(0, h, w);
    for i := 0 to w * h
      invariant forall k :: 0 <= k < i ==> buf[k] == color
      invariant forall k :: i <= k < buf.Length ==> buf[k] == old(buf[k])
    {
      buf[i] := color;
    }
    forall p | On(w, h, p) ensures Cell(buf[..], w, h, p) == color {
      ProductMonotone(0, p.1, w);
      ProductMonotone(p.1 + 1, h, w);
      Distribute(p.1, 1, w);
    }
  }

  method FillLand(buf: array<Color>, s: Scene, rings: seq<R.Polyline>)
    requires s.Drawable() && Holds(buf.Length, s.vp.width, s.vp.height)
    modifies buf
    ensures Coloured(old(buf[..]), buf[..], s.vp.width, s.vp.height, s.style.land, p => s.LandShows(rings, |rings|, p))
  {
    for k := 0 to |rings|
      invariant Coloured(old(buf[..]), buf[..], s.vp.width, s.vp.height, s.style.land, p => s.LandShows(rings, k, p))
    {
      if s.Sees(rings[k]) {
        ghost var was := buf[..];
        var ring := ProjectRing(s, rings[k]);
        FillPolygon(buf, s.vp.width, s.vp.height, ring, s.style.land);
        NextRing(s, rings, k, old(buf[..]), was, buf[..]);
      }
    }
  }

  lemma NextRing(s: Scene, rings: seq<R.Polyline>, k: nat, a: seq<Color>, b: seq<Color>, c: seq<Color>)
    requires k < |rings| && s.Sees(rings[k]) && Holds(|a|, s.vp.width, s.vp.height)
    requires Coloured(a, b, s.vp.width, s.vp.height, s.style.land, p => s.LandShows(rings, k, p))
    requires Painted(b, c, s.vp.width, s.vp.height, s.style.land, p => Region(s.Ring(rings[k]), p))
    ensures Coloured(a, c, s.vp.width, s.vp.height, s.style.land, p => s.LandShows(rings, k + 1, p))
  {
    PaintedColours(b, c, s.vp.width, s.vp.height, s.style.land, p => Region(s.Ring(rings[k]), p));
    ColouredMore(a, b, c, s.vp.width, s.vp.height, s.style.land, p => s.LandShows(rings, k, p),
                 p => Region(s.Ring(rings[k]), p), p => s.LandShows(rings, k + 1, p));
  }

  method ProjectRing(s: Scene, poly: R.Polyline) returns (ring: seq<Point>)
    ensures ring == s.Ring(poly)
  {
    ring := [];
    for i := 0 to |poly.points|
      invariant ring == s.Ring(poly)[..i]
    {
      ring := ring + [s.Project(poly.points[i])];
    }
  }

  // One segment: clipped to the canvas, rounded, plotted.
  method DrawSegment(buf: array<Color>, s: Scene, poly: R.Polyline, i: nat, dashed: bool, color: Color)
    requires s.Drawable() && Holds(buf.Length, s.vp.width, s.vp.height) && 1 <= i < |poly.points|
    modifies buf
    ensures Coloured(old(buf[..]), buf[..], s.vp.width, s.vp.height, color, p => s.SegmentShows(poly, i, dashed, p))
  {
    var a, b := s.Project(poly.points[i - 1]), s.Project(poly.points[i]);
    var r := ClipSegment(a, b, s.CanvasBox());
    if r.Some? {
      var c := r.value;
      L.PlotMapLine(buf, s.vp.width, s.vp.height, s.MaskOf(dashed),
                    Round(c.a.x), Round(c.a.y), Round(c.b.x), Round(c.b.y), color);
      PaintColours(old(buf[..]), s.vp.width, s.vp.height, s.LinePixels(c, dashed), color);
    }
    SegmentPixels(s, poly, i, dashed, r);
  }

  // A clip has one answer, so the pixels of a segment are those of that answer.
  lemma SegmentPixels(s: Scene, poly: R.Polyline, i: nat, dashed: bool, r: Option<Segment>)
    requires 1 <= i < |poly.points| && IsClip(s.Project(poly.points[i - 1]), s.Project(poly.points[i]), s.CanvasBox(), r)
    ensures forall p :: s.SegmentShows(poly, i, dashed, p) <==> r.Some? && p in s.LinePixels(r.value, dashed)
  {
    var a, b := s.Project(poly.points[i - 1]), s.Project(poly.points[i]);
    forall t | IsClip(a, b, s.CanvasBox(), Some(t)) ensures r == Some(t) {
      ClipIsUnique(a, b, s.CanvasBox(), r, Some(t));
    }
  }

  lemma ClipIsSome(a: Point, b: Point, box: Box, r: Option<Segment>)
    requires IsClip(a, b, box, r)
    ensures r.Some? <==> exists t :: 0.0 <= t <= 1.0 && InBox(box, At(a, b, t))
  {
    hide At, InBox;
    if r.Some? {
      var u0, u1 :| Visible(a, b, box, u0, u1) && r.value == Segment(At(a, b, u0), At(a, b, u1));
      assert InBox(box, At(a, b, u0));
    }
  }

  // The visible part has one first and one last parameter.
  lemma VisibleIsUnique(a: Point, b: Point, box: Box, u0: real, u1: real, v0: real, v1: real)
    requires Visible(a, b, box, u0, u1) && Visible(a, b, box, v0, v1)
    ensures u0 == v0 && u1 == v1
  {
    hide At, InBox;
    assert InBox(box, At(a, b, u0)) && InBox(box, At(a, b, u1));
    assert InBox(box, At(a, b, v0)) && InBox(box, At(a, b, v1));
  }

  lemma ClipIsUnique(a: Point, b: Point, box: Box, r: Option<Segment>, t: Option<Segment>)
    requires IsClip(a, b, box, r) && IsClip(a, b, box, t)
    ensures r == t
  {
    hide At, InBox, Visible;
    ClipIsSome(a, b, box, r);
    ClipIsSome(a, b, box, t);
    if r.Some? {
      var u0, u1 :| Visible(a, b, box, u0, u1) && r.value == Segment(At(a, b, u0), At(a, b, u1));
      var v0, v1 :| Visible(a, b, box, v0, v1) && t.value == Segment(At(a, b, v0), At(a, b, v1));
      VisibleIsUnique(a, b, box, u0, u1, v0, v1);
    }
  }

  method DrawPolyline(buf: array<Color>, s: Scene, poly: R.Polyline, dashed: bool, color: Color)
    requires s.Drawable() && Holds(buf.Length, s.vp.width, s.vp.height) && |poly.points| > 0
    modifies buf
    ensures Coloured(old(buf[..]), buf[..], s.vp.width, s.vp.height, color, p => s.PolylineShows(poly, |poly.points|, dashed, p))
  {
    for i := 1 to |poly.points|
      invariant Coloured(old(buf[..]), buf[..], s.vp.width, s.vp.height, color, p => s.PolylineShows(poly, i, dashed, p))
    {
      ghost var was := buf[..];
      DrawSegment(buf, s, poly, i, dashed, color);
      ColouredMore(old(buf[..]), was, buf[..], s.vp.width, s.vp.height, color, p => s.PolylineShows(poly, i, dashed, p),
                   p => s.SegmentShows(poly, i, dashed, p), p => s.PolylineShows(poly, i + 1, dashed, p));
    }
  }

  predicate LinesOk(lines: seq<R.Polyline>) { forall k :: 0 <= k < |lines| ==> |lines[k].points| > 0 }

  method DrawLayer(buf: array<Color>, s: Scene, lines: seq<R.Polyline>, dashed: bool, color: Color)
    requires s.Drawable() && Holds(buf.Length, s.vp.width, s.vp.height) && LinesOk(lines)
    modifies buf
    ensures Coloured(old(buf[..]), buf[..], s.vp.width, s.vp.height, color, p => s.LinesShow(lines, |lines|, dashed, p))
  {
    for k := 0 to |lines|
      invariant Coloured(old(buf[..]), buf[..], s.vp.width, s.vp.height, color, p => s.LinesShow(lines, k, dashed, p))
    {
      if s.Sees(lines[k]) {
        ghost var was := buf[..];
        DrawPolyline(buf, s, lines[k], dashed, color);
        ColouredMore(old(buf[..]), was, buf[..], s.vp.width, s.vp.height, color, p => s.LinesShow(lines, k, dashed, p),
                     p => s.PolylineShows(lines[k], |lines[k].points|, dashed, p), p => s.LinesShow(lines, k + 1, dashed, p));
      }
    }
  }

  // Every polyline of the map has a point; the loader keeps only those with two.
  predicate MapOk(map_: R.VectorMap) {
    forall l :: 0 <= l < |map_.layers| ==> LinesOk(map_.layers[l].polylines)
  }

  lemma {:induction false} LayerIsOk(layers: seq<R.Layer>, id: int)
    requires forall l :: 0 <= l < |layers| ==> LinesOk(layers[l].polylines)
    ensures LayerOf(layers, id).Some? ==> LinesOk(LayerOf(layers, id).value.polylines)
  {
    if layers != [] && layers[0].id != id { LayerIsOk(layers[1..], id); }
  }

  // The lines of one layer, if the map has it.
  method DrawLines(buf: array<Color>, s: Scene, id: int, dashed: bool, color: Color)
    requires s.Drawable() && Holds(buf.Length, s.vp.width, s.vp.height) && MapOk(s.map_)
    modifies buf
    ensures Coloured(old(buf[..]), buf[..], s.vp.width, s.vp.height, color,
                     p => s.LinesShow(s.Lines(id), |s.Lines(id)|, dashed, p))
  {
    var layer := FindLayer(s.map_, id);
    LayerIsOk(s.map_.layers, id);
    if layer.Some? {
      DrawLayer(buf, s, layer.value.polylines, dashed, color);
    }
  }

  // Sea and land, in a map view of a map that has land.
  method DrawLand(buf: array<Color>, s: Scene)
    requires s.Drawable() && Holds(buf.Length, s.vp.width, s.vp.height)
    modifies buf
    ensures SameTail(old(buf[..]), buf[..], s.vp.width, s.vp.height)
    ensures forall p :: On(s.vp.width, s.vp.height, p) ==>
              Cell(buf[..], s.vp.width, s.vp.height, p) == s.GroundAt(p, Cell(old(buf[..]), s.vp.width, s.vp.height, p))
  {
    if s.vp.mercator {
      var land := FindLayer(s.map_, LAND);
      if land.Some? {
        FillSea(buf, s.vp.width, s.vp.height, s.style.sea);
        FillLand(buf, s, land.value.polylines);
      }
    }
  }

  // The canvas shows the base map over a background, pixel by pixel.
  ghost predicate ShowsBase(s: Scene, was: seq<Color>, now: seq<Color>)
    requires Holds(|was|, s.vp.width, s.vp.height)
  {
    && SameTail(was, now, s.vp.width, s.vp.height)
    && if !s.Drawable() then now == was
       else forall p :: On(s.vp.width, s.vp.height, p) ==>
              Cell(now, s.vp.width, s.vp.height, p) == s.ColorAt(p, Cell(was, s.vp.width, s.vp.height, p))
  }

  lemma LayersOver(s: Scene, a: seq<Color>, b: seq<Color>, c: seq<Color>, d: seq<Color>)
    requires s.Drawable() && Holds(|a|, s.vp.width, s.vp.height) && SameTail(a, b, s.vp.width, s.vp.height)
    requires forall p :: On(s.vp.width, s.vp.height, p) ==>
               Cell(b, s.vp.width, s.vp.height, p) == s.GroundAt(p, Cell(a, s.vp.width, s.vp.height, p))
    requires Coloured(b, c, s.vp.width, s.vp.height, s.style.coast, p => s.LinesShow(s.Lines(COAST), |s.Lines(COAST)|, false, p))
    requires Coloured(c, d, s.vp.width, s.vp.height, s.style.border,
                      p => s.LinesShow(s.Lines(BORDER), |s.Lines(BORDER)|, s.style.dashed, p))
    ensures ShowsBase(s, a, d)
  {}

  method DrawBase(buf: array<Color>, s: Scene)
    requires Holds(buf.Length, s.vp.width, s.vp.height) && MapOk(s.map_)
    modifies buf
    ensures ShowsBase(s, old(buf[..]), buf[..])
  {
    if !s.map_.valid || s.vp.width <= 0 || s.vp.height <= 0 || s.vp.radius <= 0 {
      return;
    }
    DrawLand(buf, s);
    ghost var ground := buf[..];
    DrawLines(buf, s, COAST, false, s.style.coast);
    ghost var coast := buf[..];
    DrawLines(buf, s, BORDER, s.style.dashed, s.style.border);
    LayersOver(s, old(buf[..]), ground, coast, buf[..]);
  }

  // Nothing is drawn of an invalid map or in an empty view. Else a pixel shows a border
  // that runs through it, else a coast; else the ground of a map view with land, and
  // else what was there.
  lemma PixelShows(s: Scene, was: seq<Color>, now: seq<Color>, p: Pixel)
    requires Holds(|was|, s.vp.width, s.vp.height) && ShowsBase(s, was, now) && On(s.vp.width, s.vp.height, p)
    ensures !s.map_.valid || s.vp.radius <= 0 ==> now == was
    ensures s.map_.valid && s.vp.radius > 0 ==>
            var c := Cell(now, s.vp.width, s.vp.height, p);
            var border := s.LinesShow(s.Lines(1), |s.Lines(1)|, s.style.dashed, p);
            var coast := s.LinesShow(s.Lines(0), |s.Lines(0)|, false, p);
            var land := LayerOf(s.map_.layers, 4);
            && (border ==> c == s.style.border)
            && (coast && !border ==> c == s.style.coast)
            && (!coast && !border && s.vp.mercator && land.Some? ==>
                  c == if s.LandShows(land.value.polylines, |land.value.polylines|, p) then s.style.land else s.style.sea)
            && (!coast && !border && !(s.vp.mercator && land.Some?) ==> c == Cell(was, s.vp.width, s.vp.height, p))
  {}

  // A drawing is determined by the scene and the background.
  lemma BaseIsDetermined(s: Scene, was: seq<Color>, a: seq<Color>, b: seq<Color>)
    requires Holds(|was|, s.vp.width, s.vp.height) && ShowsBase(s, was, a) && ShowsBase(s, was, b)
    ensures a == b
  {
    if s.Drawable() {
      var w, h := s.vp.width, s.vp.height;
      forall i | 0 <= i < |was| && i < w * h ensures a[i] == b[i] {
        var p := (i % w, i / w);
        PixelOf(w, h, i);
        assert Cell(a, w, h, p) == Cell(b, w, h, p);
      }
    }
  }

  // A drawing on a longer buffer is one on its first cells.
  lemma BaseOfCanvas(s: Scene, was: seq<Color>, now: seq<Color>)
    requires s.vp.width > 0 && s.vp.height > 0 && s.vp.width * s.vp.height <= |was| && ShowsBase(s, was, now)
    ensures 0 <= s.vp.width * s.vp.height
    ensures var n := s.vp.width * s.vp.height; ShowsBase(s, was[..n], now[..n]) && now[n..] == was[n..]
  {
    ProductMonotone(0, s.vp.height, s.vp.width);
    var n := s.vp.width * s.vp.height;
    if s.Drawable() {
      forall p | On(s.vp.width, s.vp.height, p)
        ensures Cell(now[..n], s.vp.width, s.vp.height, p) == s.ColorAt(p, Cell(was[..n], s.vp.width, s.vp.height, p))
      {
        OffsetInside(n, s.vp.width, s.vp.height, p);
        assert Cell(now, s.vp.width, s.vp.height, p) == s.ColorAt(p, Cell(was, s.vp.width, s.vp.height, p));
      }
    }
  }

  // The pixel of a cell.
  lemma PixelOf(w: int, h: int, i: int)
    requires w > 0 && h > 0 && 0 <= i < w * h
    ensures On(w, h, (i % w, i / w)) && Offset(w, (i % w, i / w)) == i
  {
    if i / w >= h { ProductMonotone(h, i / w, w); }
  }

  // ---- loaded maps can be drawn

  lemma {:induction false} PolysAreOk(buf: seq<R.Byte>, c: R.Cur, n: nat, ps: seq<R.Polyline>)
    requires LinesOk(ps)
    ensures LinesOk(R.Polys(buf, c, n, ps).0)
    decreases n
  {
    if n > 0 && c.ok {
      var (p, c2) := R.Points(buf, R.Skip(buf, c, 2), R.U16(buf, c), R.NOTHING);
      PolysAreOk(buf, c2, n - 1, R.Keep(ps, p));
    }
  }

  lemma {:induction false} LayersAreOk(buf: seq<R.Byte>, c: R.Cur, n: nat, ls: seq<R.Layer>)
    requires forall l :: 0 <= l < |ls| ==> LinesOk(ls[l].polylines)
    ensures forall l :: 0 <= l < |R.Layers(buf, c, n, ls).0| ==> LinesOk(R.Layers(buf, c, n, ls).0[l].polylines)
    decreases n
  {
    if n > 0 && c.ok {
      var c1 := R.Skip(buf, R.Skip(buf, R.Skip(buf, c, 1), 1), 2);
      var (ps, c2) := R.Polys(buf, R.Skip(buf, c1, 4), R.U32(buf, c1), []);
      PolysAreOk(buf, R.Skip(buf, c1, 4), R.U32(buf, c1), []);
      LayersAreOk(buf, c2, n - 1, ls + [R.Layer(R.U8(buf, c), ps)]);
    }
  }

  // Whatever the file holds.
  lemma LoadedMapIsOk(file: Option<seq<R.Byte>>)
    ensures MapOk(R.Loaded(file))
  {
    if file.Some? && R.Recognised(file.value) {
      var buf := file.value;
      var c0 := R.Skip(buf, R.Skip(buf, R.Skip(buf, R.Cur(4, true), 1), 1), 2);
      var c4 := R.Skip(buf, R.Skip(buf, R.Skip(buf, R.Skip(buf, c0, 8), 8), 8), 8);
      LayersAreOk(buf, R.Skip(buf, c4, 2), R.U16(buf, c4), []);
    }
  }
}
