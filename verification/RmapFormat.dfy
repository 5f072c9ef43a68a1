// The RMAP format, byte by byte (tools/mapdata/build_mapdata.py,
// toolkit/src/map/vector_map.cpp): which files the loader takes and what it makes of
// them, and what the writer puts where.
module RmapFormat {
  import opened Rmap
  import opened Options
  import opened Sequences

  // ---- the format

  // Two bytes, low one first.
  predicate Two(buf: seq<Byte>, off: nat, v: int) {
    off + 2 <= |buf| && v == buf[off] as int + 256 * buf[off + 1] as int
  }

  predicate PointAt(buf: seq<Byte>, off: nat, q: QPoint) { Two(buf, off, q.x) && Two(buf, off + 2, q.y) }

  predicate PointsAt(buf: seq<Byte>, off: nat, qs: seq<QPoint>)
    decreases |qs|
  {
    qs == [] || (PointAt(buf, off, qs[0]) && PointsAt(buf, off + 4, qs[1..]))
  }

  // A polyline is its number of points and the points; it ends at next.
  predicate LineAt(buf: seq<Byte>, off: nat, line: seq<QPoint>, next: nat) {
    Two(buf, off, |line|) && PointsAt(buf, off + 2, line) && next == off + 2 + 4 * |line|
  }

  ghost predicate LinesAt(buf: seq<Byte>, off: nat, lines: seq<seq<QPoint>>, end: nat)
    decreases |lines|
  {
    if lines == [] then off == end
    else exists next: nat :: LineAt(buf, off, lines[0], next) && LinesAt(buf, next, lines[1..], end)
  }

  // A layer is its id, three bytes of no account, the number of its polylines in four
  // bytes, and the polylines.
  ghost predicate LayerAt(buf: seq<Byte>, off: nat, l: SourceLayer, end: nat) {
    && off + 8 <= |buf| && l.id == buf[off] as int
    && |l.polylines| == buf[off + 4] as int + 256 * buf[off + 5] as int + 65536 * buf[off + 6] as int
                        + 16777216 * buf[off + 7] as int
    && LinesAt(buf, off + 8, l.polylines, end)
  }

  ghost predicate LayersAt(buf: seq<Byte>, off: nat, layers: seq<SourceLayer>, end: nat)
    decreases |layers|
  {
    if layers == [] then off == end
    else exists next: nat :: LayerAt(buf, off, layers[0], next) && LayersAt(buf, next, layers[1..], end)
  }

  predicate HeaderAt(buf: seq<Byte>, m: Source) {
    && |buf| >= 42 && buf[0] == 82 && buf[1] == 77 && buf[2] == 65 && buf[3] == 80 && buf[4] == 1
    && buf[8..16] == m.ymin && buf[16..24] == m.xmin && buf[24..32] == m.ymax && buf[32..40] == m.xmax
    && Two(buf, 40, |m.layers|)
  }

  // The file holds this map up to end, whatever follows.
  ghost predicate Holds(buf: seq<Byte>, m: Source, end: nat) { HeaderAt(buf, m) && LayersAt(buf, 42, m.layers, end) }

  // ---- the loader takes what is in the format

  lemma TwoBack(buf: seq<Byte>, off: nat, v: int)
    requires Two(buf, off, v)
    ensures U16(buf, Cur(off, true)) == v && Skip(buf, Cur(off, true), 2) == Cur(off + 2, true)
  {}

  lemma {:induction false} PointsLoad(buf: seq<Byte>, off: nat, qs: seq<QPoint>, p: Polyline)
    requires PointsAt(buf, off, qs)
    ensures Points(buf, Cur(off, true), |qs|, p) == (GrowAll(p, qs), Cur(off + 4 * |qs|, true))
    decreases |qs|
  {
    if qs != [] {
      TwoBack(buf, off, qs[0].x);
      TwoBack(buf, off + 2, qs[0].y);
      PointsLoad(buf, off + 4, qs[1..], Grow(p, qs[0]));
    }
  }

  lemma LineLoads(buf: seq<Byte>, off: nat, line: seq<QPoint>, next: nat)
    requires LineAt(buf, off, line, next)
    ensures var c := Cur(off, true); Points(buf, Skip(buf, c, 2), U16(buf, c), NOTHING) == (Traced(line), Cur(next, true))
  {
    TwoBack(buf, off, |line|);
    PointsLoad(buf, off + 2, line, NOTHING);
  }

  lemma {:induction false} LinesLoad(buf: seq<Byte>, off: nat, lines: seq<seq<QPoint>>, end: nat, ps: seq<Polyline>)
    requires LinesAt(buf, off, lines, end)
    ensures Polys(buf, Cur(off, true), |lines|, ps) == (KeptAll(ps, lines), Cur(end, true))
    decreases |lines|
  {
    hide Points, Traced, LineAt, Keep;
    if lines != [] {
      var next: nat :| LineAt(buf, off, lines[0], next) && LinesAt(buf, next, lines[1..], end);
      LineLoads(buf, off, lines[0], next);
      LinesLoad(buf, next, lines[1..], end, Keep(ps, Traced(lines[0])));
      PolysTurn(buf, off, lines, ps, next, end);
    }
  }

  lemma LayerLoads(buf: seq<Byte>, off: nat, l: SourceLayer, next: nat)
    requires LayerAt(buf, off, l, next)
    ensures ReadsLayer(buf, off, l, next)
  {
    LinesLoad(buf, off + 8, l.polylines, next, []);
  }

  lemma {:induction false} LayersChain(buf: seq<Byte>, off: nat, layers: seq<SourceLayer>, end: nat)
    requires LayersAt(buf, off, layers, end)
    ensures Chain(buf, off, layers, end)
    decreases |layers|
  {
    hide ReadsLayer, LayerAt;
    if layers != [] {
      var next: nat :| LayerAt(buf, off, layers[0], next) && LayersAt(buf, next, layers[1..], end);
      LayerLoads(buf, off, layers[0], next);
      LayersChain(buf, next, layers[1..], end);
    }
  }

  // A file in the format loads as the map it holds.
  lemma HeldIsLoaded(buf: seq<Byte>, m: Source, end: nat)
    requires Holds(buf, m, end)
    ensures Loaded(Some(buf)) == MapOf(m)
  {
    hide Body, Layers, LayersOf, Chain, LayersAt;
    LayersChain(buf, 42, m.layers, end);
    ChainReads(buf, 42, m.layers, end, []);
    HeaderFields(buf, m);
  }

  lemma HeaderFields(buf: seq<Byte>, m: Source)
    requires HeaderAt(buf, m)
    ensures Recognised(buf)
    ensures var (ls, c) := Layers(buf, Cur(42, true), |m.layers|, []);
            Body(buf) == (VectorMap(c.ok, m.ymin, m.xmin, m.ymax, m.xmax, ls), c)
  {
    hide Layers;
    assert buf[..4] == [buf[0], buf[1], buf[2], buf[3]];
    ReadDouble(buf, 8, m.ymin);
    ReadDouble(buf, 16, m.xmin);
    ReadDouble(buf, 24, m.ymax);
    ReadDouble(buf, 32, m.xmax);
    TwoBack(buf, 40, |m.layers|);
  }

  // ---- and nothing else

  lemma TwoRead(buf: seq<Byte>, off: nat)
    requires Skip(buf, Cur(off, true), 2).ok
    ensures Two(buf, off, U16(buf, Cur(off, true))) && Skip(buf, Cur(off, true), 2) == Cur(off + 2, true)
  {}

  // A reader that is good in the end was good before.
  lemma PointsGood(buf: seq<Byte>, c: Cur, n: nat, p: Polyline)
    requires Points(buf, c, n, p).1.ok
    ensures c.ok
  {}

  lemma {:induction false} PointsRead(buf: seq<Byte>, off: nat, n: nat, p: Polyline) returns (qs: seq<QPoint>)
    requires Points(buf, Cur(off, true), n, p).1.ok
    ensures |qs| == n && PointsAt(buf, off, qs) && Points(buf, Cur(off, true), n, p).1 == Cur(off + 4 * n, true)
    decreases n
  {
    qs := [];
    if n > 0 {
      var c := Cur(off, true);
      var c1 := Skip(buf, c, 2);
      var q, c2 := QPoint(U16(buf, c), U16(buf, c1)), Skip(buf, c1, 2);
      PointsGood(buf, c2, n - 1, Grow(p, q));
      TwoRead(buf, off);
      TwoRead(buf, off + 2);
      qs := PointsRead(buf, off + 4, n - 1, Grow(p, q));
      qs := [q] + qs;
    }
  }

  lemma LineRead(buf: seq<Byte>, off: nat, next: Cur) returns (line: seq<QPoint>)
    requires var c := Cur(off, true); Points(buf, Skip(buf, c, 2), U16(buf, c), NOTHING).1 == next
    requires next.ok
    ensures LineAt(buf, off, line, next.off)
  {
    var c := Cur(off, true);
    PointsGood(buf, Skip(buf, c, 2), U16(buf, c), NOTHING);
    TwoRead(buf, off);
    line := PointsRead(buf, off + 2, U16(buf, c), NOTHING);
  }

  lemma PolysGood(buf: seq<Byte>, c: Cur, n: nat, ps: seq<Polyline>)
    requires Polys(buf, c, n, ps).1.ok
    ensures c.ok
  {}

  lemma LinesCons(buf: seq<Byte>, off: nat, lines: seq<seq<QPoint>>, next: nat, end: nat)
    requires lines != [] && LineAt(buf, off, lines[0], next) && LinesAt(buf, next, lines[1..], end)
    ensures LinesAt(buf, off, lines, end)
  {}

  lemma {:induction false} LinesRead(buf: seq<Byte>, off: nat, n: nat, ps: seq<Polyline>) returns (lines: seq<seq<QPoint>>)
    requires Polys(buf, Cur(off, true), n, ps).1.ok
    ensures |lines| == n && LinesAt(buf, off, lines, Polys(buf, Cur(off, true), n, ps).1.off)
    decreases n
  {
    lines := [];
    if n > 0 {
      var c := Cur(off, true);
      var (p, c2) := Points(buf, Skip(buf, c, 2), U16(buf, c), NOTHING);
      PolysGood(buf, c2, n - 1, Keep(ps, p));
      var line := LineRead(buf, off, c2);
      var more := LinesRead(buf, c2.off, n - 1, Keep(ps, p));
      lines := [line] + more;
      LinesCons(buf, off, lines, c2.off, Polys(buf, c, n, ps).1.off);
    }
  }

  lemma LayersGood(buf: seq<Byte>, c: Cur, n: nat, ls: seq<Layer>)
    requires Layers(buf, c, n, ls).1.ok
    ensures c.ok
  {}

  // A layer that reads well is in the format.
  lemma LayerRead(buf: seq<Byte>, off: nat, end: Cur) returns (l: SourceLayer)
    requires var c := Skip(buf, Skip(buf, Skip(buf, Cur(off, true), 1), 1), 2);
             Polys(buf, Skip(buf, c, 4), U32(buf, c), []).1 == end
    requires end.ok
    ensures LayerAt(buf, off, l, end.off)
  {
    hide Polys, LinesAt;
    var c := Skip(buf, Skip(buf, Skip(buf, Cur(off, true), 1), 1), 2);
    var n := U32(buf, c);
    PolysGood(buf, Skip(buf, c, 4), n, []);
    var lines := LinesRead(buf, off + 8, n, []);
    l := SourceLayer(buf[off] as int, lines);
  }

  lemma LayersCons(buf: seq<Byte>, off: nat, layers: seq<SourceLayer>, next: nat, end: nat)
    requires layers != [] && LayerAt(buf, off, layers[0], next) && LayersAt(buf, next, layers[1..], end)
    ensures LayersAt(buf, off, layers, end)
  {}

  lemma {:induction false} LayersRead(buf: seq<Byte>, off: nat, n: nat, ls: seq<Layer>) returns (layers: seq<SourceLayer>)
    requires Layers(buf, Cur(off, true), n, ls).1.ok
    ensures |layers| == n && LayersAt(buf, off, layers, Layers(buf, Cur(off, true), n, ls).1.off)
    decreases n
  {
    hide Polys, LayerAt, Skip, U8, U32;
    layers := [];
    if n > 0 {
      var c1 := Skip(buf, Skip(buf, Skip(buf, Cur(off, true), 1), 1), 2);
      var (ps, c2) := Polys(buf, Skip(buf, c1, 4), U32(buf, c1), []);
      var more := ls + [Layer(U8(buf, Cur(off, true)), ps)];
      LayersGood(buf, c2, n - 1, more);
      var l := LayerRead(buf, off, c2);
      var rest := LayersRead(buf, c2.off, n - 1, more);
      layers := [l] + rest;
      LayersCons(buf, off, layers, c2.off, Layers(buf, Cur(off, true), n, ls).1.off);
    }
  }

  // The fields of the header of a file whose body reads well.
  lemma HeaderRead(buf: seq<Byte>) returns (n: nat)
    requires Recognised(buf) && Body(buf).1.ok
    ensures |buf| >= 42 && Layers(buf, Cur(42, true), n, []).1 == Body(buf).1
    ensures buf[0] == 82 && buf[1] == 77 && buf[2] == 65 && buf[3] == 80 && buf[4] == 1 && Two(buf, 40, n)
  {
    hide Layers;
    assert buf[..4][0] == 82 && buf[..4][1] == 77 && buf[..4][2] == 65 && buf[..4][3] == 80;
    n := U16(buf, Cur(40, true));
    LongEnough(buf);
    TwoRead(buf, 40);
  }

  lemma LongEnough(buf: seq<Byte>)
    requires |buf| >= 4 && Body(buf).1.ok
    ensures |buf| >= 42
  {
    var c0 := Skip(buf, Skip(buf, Skip(buf, Cur(4, true), 1), 1), 2);
    var c1 := Skip(buf, c0, 8);
    var c2 := Skip(buf, c1, 8);
    var c3 := Skip(buf, c2, 8);
    var c4 := Skip(buf, c3, 8);
    LayersGood(buf, Skip(buf, c4, 2), U16(buf, c4), []);
    hide Layers;
  }

  // A file that loads holds a map.
  lemma LoadedIsHeld(buf: seq<Byte>) returns (m: Source, end: nat)
    requires Loaded(Some(buf)).valid
    ensures Holds(buf, m, end)
  {
    hide Layers, LayersAt;
    var n := HeaderRead(buf);
    var layers := LayersRead(buf, 42, n, []);
    end := Body(buf).1.off;
    m := Source(buf[16..24], buf[8..16], buf[32..40], buf[24..32], layers);
    hide Body, Recognised;
  }

  // The loader takes exactly the files in the format.
  lemma LoadedIff(buf: seq<Byte>)
    ensures Loaded(Some(buf)).valid <==> exists m, end: nat :: Holds(buf, m, end)
  {
    hide Holds, Body;
    if Loaded(Some(buf)).valid {
      var m, end := LoadedIsHeld(buf);
    }
    forall m, end: nat | Holds(buf, m, end) ensures Loaded(Some(buf)).valid {
      HeldIsLoaded(buf, m, end);
    }
  }

  // ---- what the writer puts in a file

  lemma TwoWritten(buf: seq<Byte>, off: nat, v: int)
    requires Sits(buf, off, LE16(v)) && 0 <= v < 65536
    ensures Two(buf, off, v)
  {
    var s := buf[off..off + 2];
    assert s[0] == buf[off] && s[1] == buf[off + 1];
  }

  lemma {:induction false} PointsWritten(buf: seq<Byte>, off: nat, qs: seq<QPoint>)
    requires Sits(buf, off, PointBytes(qs)) && forall q :: q in qs ==> Fits16(q.x) && Fits16(q.y)
    ensures PointsAt(buf, off, qs) && |PointBytes(qs)| == 4 * |qs|
    decreases |qs|
  {
    if qs != [] {
      var q := qs[0];
      WrittenHead(buf, off, qs, EncPoint);
      hide Written, Sits;
      SitsConcat(buf, off, LE16(q.x), LE16(q.y));
      TwoWritten(buf, off, q.x);
      TwoWritten(buf, off + 2, q.y);
      PointsWritten(buf, off + 4, qs[1..]);
    }
  }

  lemma LineWritten(buf: seq<Byte>, off: nat, line: seq<QPoint>)
    requires Sits(buf, off, EncPoly(line)) && PackPoly(line)
    ensures LineAt(buf, off, line, off + |EncPoly(line)|)
  {
    SitsConcat(buf, off, LE16(|line|), PointBytes(line));
    TwoWritten(buf, off, |line|);
    PointsWritten(buf, off + 2, line);
  }

  lemma {:induction false} LinesWritten(buf: seq<Byte>, off: nat, lines: seq<seq<QPoint>>)
    requires Sits(buf, off, PolyBytes(lines)) && forall l :: l in lines ==> PackPoly(l)
    ensures LinesAt(buf, off, lines, off + |PolyBytes(lines)|)
    decreases |lines|
  {
    hide EncPoly, LineAt;
    if lines != [] {
      WrittenHead(buf, off, lines, EncPoly);
      LineWritten(buf, off, lines[0]);
      var next := off + |EncPoly(lines[0])|;
      LinesWritten(buf, next, lines[1..]);
      LinesCons(buf, off, lines, next, next + |PolyBytes(lines[1..])|);
    }
  }

  lemma LayerWritten(buf: seq<Byte>, off: nat, l: SourceLayer)
    requires Sits(buf, off, EncLayer(l)) && PackLayer(l)
    ensures LayerAt(buf, off, l, off + |EncLayer(l)|)
    ensures buf[off + 1] == 0 && buf[off + 2] == 0 && buf[off + 3] == 0
  {
    hide LinesAt, Written;
    LayerHead(buf, off, l);
    var s := buf[off..off + |EncLayer(l)|];
    assert s == EncLayer(l) && forall k :: 0 <= k < 8 ==> s[k] == buf[off + k];
    LinesWritten(buf, off + 8, l.polylines);
  }

  lemma {:induction false} LayersWritten(buf: seq<Byte>, off: nat, layers: seq<SourceLayer>)
    requires Sits(buf, off, LayerBytes(layers)) && forall l :: l in layers ==> PackLayer(l)
    ensures LayersAt(buf, off, layers, off + |LayerBytes(layers)|)
    decreases |layers|
  {
    hide EncLayer, LayerAt;
    if layers != [] {
      WrittenHead(buf, off, layers, EncLayer);
      LayerWritten(buf, off, layers[0]);
      var next := off + |EncLayer(layers[0])|;
      LayersWritten(buf, next, layers[1..]);
      LayersCons(buf, off, layers, next, next + |LayerBytes(layers[1..])|);
    }
  }

  // The written file holds its map to the last byte; the header's unused bytes are 0.
  lemma WrittenHolds(m: Source)
    requires Packable(m)
    ensures var buf := Encode(m); Holds(buf, m, |buf|) && buf[5] == 0 && buf[6] == 0 && buf[7] == 0
  {
    hide EncHeader, LayerBytes, LayersAt;
    var buf, head, tail := Encode(m), EncHeader(m), LayerBytes(m.layers);
    assert Sits(buf, 0, head + tail);
    SitsConcat(buf, 0, head, tail);
    HeaderBack(buf, m);
    TwoWritten(buf, 40, |m.layers|);
    LayersWritten(buf, 42, m.layers);
    HeaderStart(buf, m);
  }

  lemma HeaderStart(buf: seq<Byte>, m: Source)
    requires Sits(buf, 0, EncHeader(m)) && |EncHeader(m)| >= 8
    ensures buf[0] == 82 && buf[1] == 77 && buf[2] == 65 && buf[3] == 80 && buf[4] == 1
    ensures buf[5] == 0 && buf[6] == 0 && buf[7] == 0
  {
    var s := buf[0..|EncHeader(m)|];
    assert s == EncHeader(m) && forall k :: 0 <= k < 8 ==> s[k] == buf[k];
  }

  // A map can be written exactly when its counts and numbers fit their fields.
  lemma WritableIff(m: Source)
    ensures Packable(m) <==>
            && |m.layers| <= 65535
            && forall i :: 0 <= i < |m.layers| ==> Writable(m.layers[i])
  {
    if Packable(m) {
      forall i | 0 <= i < |m.layers| ensures Writable(m.layers[i]) {
        assert m.layers[i] in m.layers;
        LayerWritable(m.layers[i]);
      }
    }
    if forall i :: 0 <= i < |m.layers| ==> Writable(m.layers[i]) {
      forall l | l in m.layers ensures PackLayer(l) { LayerWritable(l); }
    }
  }

  predicate Writable(l: SourceLayer) {
    && 0 <= l.id <= 255 && |l.polylines| <= 4294967295
    && forall j :: 0 <= j < |l.polylines| ==> WritableLine(l.polylines[j])
  }

  predicate WritableLine(line: seq<QPoint>) {
    |line| <= 65535 && forall k :: 0 <= k < |line| ==> 0 <= line[k].x <= 65535 && 0 <= line[k].y <= 65535
  }

  lemma LineWritable(line: seq<QPoint>)
    ensures PackPoly(line) <==> WritableLine(line)
  {
    if PackPoly(line) {
      forall k | 0 <= k < |line| ensures Fits16(line[k].x) && Fits16(line[k].y) { assert line[k] in line; }
    }
  }

  lemma LayerWritable(l: SourceLayer)
    ensures PackLayer(l) <==> Writable(l)
  {
    if PackLayer(l) {
      forall j | 0 <= j < |l.polylines| ensures WritableLine(l.polylines[j]) {
        assert l.polylines[j] in l.polylines;
        LineWritable(l.polylines[j]);
      }
    }
    if Writable(l) {
      forall p | p in l.polylines ensures PackPoly(p) { LineWritable(p); }
    }
  }
}
