// The RMAP vector-map file: the writer of the map builder
// (tools/mapdata/build_mapdata.py) and the loader of the renderer
// (toolkit/src/map/vector_map.cpp). A double is its eight-byte image, which both
// sides copy verbatim.
module Rmap {
  import opened Ints
  import opened Options
  import opened Sequences

  newtype Byte = b: int | 0 <= b < 256

  type Double = d: seq<Byte> | |d| == 8 witness [0, 0, 0, 0, 0, 0, 0, 0]

  datatype QPoint = QPoint(x: int, y: int)

  // ---- what the builder writes

  datatype SourceLayer = SourceLayer(id: int, polylines: seq<seq<QPoint>>)

  datatype Source = Source(xmin: Double, ymin: Double, xmax: Double, ymax: Double, layers: seq<SourceLayer>)

  // The low byte of a number.
  function Low(v: int): Byte { (v % 256) as Byte }

  function LE16(v: int): seq<Byte> { [Low(v), Low(v / 256)] }

  function LE32(v: int): seq<Byte> {
    [Low(v), Low(v / 256), Low(v / 256 / 256), Low(v / 256 / 256 / 256)]
  }

  function EncPoint(q: QPoint): seq<Byte> { LE16(q.x) + LE16(q.y) }

  // A list, item by item.
  function Written<T>(items: seq<T>, enc: T -> seq<Byte>): seq<Byte> {
    if items == [] then [] else enc(items[0]) + Written(items[1..], enc)
  }

  function PointBytes(qs: seq<QPoint>): seq<Byte> { Written(qs, EncPoint) }

  function EncPoly(p: seq<QPoint>): seq<Byte> { LE16(|p|) + PointBytes(p) }

  function PolyBytes(ps: seq<seq<QPoint>>): seq<Byte> { Written(ps, EncPoly) }

  function EncLayer(l: SourceLayer): seq<Byte> {
    [Low(l.id), 0] + LE16(0) + (LE32(|l.polylines|) + PolyBytes(l.polylines))
  }

  function LayerBytes(ls: seq<SourceLayer>): seq<Byte> { Written(ls, EncLayer) }

  const MAGIC: seq<Byte> := [82, 77, 65, 80]

  const VERSION: Byte := 1

  function EncHeader(m: Source): seq<Byte> {
    MAGIC + ([VERSION, 0] + (LE16(0) + (m.ymin + (m.xmin + (m.ymax + (m.xmax + LE16(|m.layers|)))))))
  }

  function Encode(m: Source): seq<Byte> {
    EncHeader(m) + LayerBytes(m.layers)
  }

  // What struct.pack accepts: every number fits its field.
  predicate Fits16(v: int) { 0 <= v < 65536 }

  predicate PackPoly(p: seq<QPoint>) {
    |p| < 65536 && forall q :: q in p ==> Fits16(q.x) && Fits16(q.y)
  }

  predicate PackLayer(l: SourceLayer) {
    0 <= l.id < 256 && |l.polylines| < 4294967296 && forall p :: p in l.polylines ==> PackPoly(p)
  }

  predicate Packable(m: Source) {
    |m.layers| < 65536 && forall l :: l in m.layers ==> PackLayer(l)
  }

  // Writing one more item of a list.
  lemma {:induction false} WrittenNext<T>(items: seq<T>, enc: T -> seq<Byte>, i: nat)
    requires i < |items|
    ensures Written(items[..i + 1], enc) == Written(items[..i], enc) + enc(items[i])
  {
    if i == 0 {
      assert items[..1][1..] == [] && items[..0] == [];
    } else {
      WrittenNext(items[1..], enc, i - 1);
      assert items[..i + 1][1..] == items[1..][..i] && items[..i][1..] == items[1..][..i - 1];
    }
  }

  method WritePoly(p: seq<QPoint>) returns (r: Option<seq<Byte>>)
    ensures r == if PackPoly(p) then Some(EncPoly(p)) else None
  {
    if |p| >= 65536 {
      return None;
    }
    var buf := LE16(|p|);
    for i := 0 to |p|
      invariant buf == LE16(|p|) + PointBytes(p[..i])
      invariant forall k :: 0 <= k < i ==> Fits16(p[k].x) && Fits16(p[k].y)
    {
      if !Fits16(p[i].x) || !Fits16(p[i].y) {
        assert p[i] in p;
        return None;
      }
      WrittenNext(p, EncPoint, i);
      buf := buf + EncPoint(p[i]);
    }
    assert p[..|p|] == p;
    r := Some(buf);
  }

  method WriteLayer(l: SourceLayer) returns (r: Option<seq<Byte>>)
    ensures r == if PackLayer(l) then Some(EncLayer(l)) else None
  {
    if !(0 <= l.id < 256) || |l.polylines| >= 4294967296 {
      return None;
    }
    var head: seq<Byte> := [Low(l.id), 0] + LE16(0);
    var count := LE32(|l.polylines|);
    var buf: seq<Byte> := [];
    for i := 0 to |l.polylines|
      invariant buf == PolyBytes(l.polylines[..i])
      invariant forall k :: 0 <= k < i ==> PackPoly(l.polylines[k])
    {
      var p := WritePoly(l.polylines[i]);
      if p.None? {
        assert l.polylines[i] in l.polylines;
        return None;
      }
      WrittenNext(l.polylines, EncPoly, i);
      buf := buf + p.value;
    }
    assert l.polylines[..|l.polylines|] == l.polylines;
    r := Some(head + (count + buf));
  }

  /** The whole file, or nothing when a number does not fit its field. */
  method WriteRmap(m: Source) returns (r: Option<seq<Byte>>)
    ensures r == if Packable(m) then Some(Encode(m)) else None
  {
    if |m.layers| >= 65536 {
      return None;
    }
    hide EncHeader, EncLayer;
    var head := EncHeader(m);
    var buf: seq<Byte> := [];
    for i := 0 to |m.layers|
      invariant buf == LayerBytes(m.layers[..i])
      invariant forall k :: 0 <= k < i ==> PackLayer(m.layers[k])
    {
      var l := WriteLayer(m.layers[i]);
      if l.None? {
        assert m.layers[i] in m.layers;
        return None;
      }
      WrittenNext(m.layers, EncLayer, i);
      buf := buf + l.value;
    }
    assert m.layers[..|m.layers|] == m.layers;
    r := Some(head + buf);
  }

  // ---- what the loader builds

  datatype Polyline = Polyline(points: seq<QPoint>, lo: QPoint, hi: QPoint)

  datatype Layer = Layer(id: int, polylines: seq<Polyline>)

  datatype VectorMap = VectorMap(valid: bool, minLat: Double, minLon: Double, maxLat: Double, maxLon: Double, layers: seq<Layer>)

  const ZERO: Double := [0, 0, 0, 0, 0, 0, 0, 0]

  const EMPTY := VectorMap(false, ZERO, ZERO, ZERO, ZERO, [])

  const NOTHING := Polyline([], QPoint(65535, 65535), QPoint(0, 0))

  function Grow(p: Polyline, q: QPoint): Polyline {
    Polyline(p.points + [q], QPoint(Min(p.lo.x, q.x), Min(p.lo.y, q.y)), QPoint(Max(p.hi.x, q.x), Max(p.hi.y, q.y)))
  }

  // The cursor of the reader.
  datatype Cur = Cur(off: nat, ok: bool)

  function Need(buf: seq<Byte>, c: Cur, n: nat): Cur {
    if !c.ok || c.off + n > |buf| then Cur(c.off, false) else c
  }

  function Skip(buf: seq<Byte>, c: Cur, n: nat): Cur {
    if Need(buf, c, n).ok then Cur(c.off + n, true) else Need(buf, c, n)
  }

  function Value(b: Byte): nat { b as int }

  function U8(buf: seq<Byte>, c: Cur): nat {
    if Need(buf, c, 1).ok then Value(buf[c.off]) else 0
  }

  function U16(buf: seq<Byte>, c: Cur): nat {
    if Need(buf, c, 2).ok then Value(buf[c.off]) + 256 * Value(buf[c.off + 1]) else 0
  }

  function U32(buf: seq<Byte>, c: Cur): nat {
    if Need(buf, c, 4).ok then
      Value(buf[c.off]) + 256 * (Value(buf[c.off + 1]) + 256 * (Value(buf[c.off + 2]) + 256 * Value(buf[c.off + 3])))
    else 0
  }

  function F64(buf: seq<Byte>, c: Cur): Double {
    if Need(buf, c, 8).ok then buf[c.off..c.off + 8] else ZERO
  }

  // n more points: each turn reads two numbers, whether or not they are there.
  function Points(buf: seq<Byte>, c: Cur, n: nat, p: Polyline): (Polyline, Cur)
    decreases n
  {
    if n == 0 || !c.ok then (p, c)
    else
      var c1 := Skip(buf, c, 2);
      Points(buf, Skip(buf, c1, 2), n - 1, Grow(p, QPoint(U16(buf, c), U16(buf, c1))))
  }

  function Keep(ps: seq<Polyline>, p: Polyline): seq<Polyline> {
    if |p.points| >= 2 then ps + [p] else ps
  }

  function Polys(buf: seq<Byte>, c: Cur, n: nat, ps: seq<Polyline>): (seq<Polyline>, Cur)
    decreases n
  {
    if n == 0 || !c.ok then (ps, c)
    else
      var (p, c2) := Points(buf, Skip(buf, c, 2), U16(buf, c), NOTHING);
      Polys(buf, c2, n - 1, Keep(ps, p))
  }

  function Layers(buf: seq<Byte>, c: Cur, n: nat, ls: seq<Layer>): (seq<Layer>, Cur)
    decreases n
  {
    if n == 0 || !c.ok then (ls, c)
    else
      var c1 := Skip(buf, Skip(buf, Skip(buf, c, 1), 1), 2);
      var (ps, c2) := Polys(buf, Skip(buf, c1, 4), U32(buf, c1), []);
      Layers(buf, c2, n - 1, ls + [Layer(U8(buf, c), ps)])
  }

  // After the magic and the version: the box, the layer count, the layers.
  function Body(buf: seq<Byte>): (r: (VectorMap, Cur))
    requires |buf| >= 4
    ensures r.0.valid == r.1.ok
  {
    var c0 := Skip(buf, Skip(buf, Skip(buf, Cur(4, true), 1), 1), 2);
    var c1 := Skip(buf, c0, 8);
    var c2 := Skip(buf, c1, 8);
    var c3 := Skip(buf, c2, 8);
    var c4 := Skip(buf, c3, 8);
    var (ls, c5) := Layers(buf, Skip(buf, c4, 2), U16(buf, c4), []);
    (VectorMap(c5.ok, F64(buf, c0), F64(buf, c1), F64(buf, c2), F64(buf, c3), ls), c5)
  }

  predicate Recognised(buf: seq<Byte>) {
    |buf| >= 4 && buf[..4] == MAGIC && U8(buf, Cur(4, true)) == 1
  }

  // What loading a file gives; None is a file that cannot be opened.
  function Loaded(file: Option<seq<Byte>>): VectorMap {
    if file.Some? && Recognised(file.value) then Body(file.value).0 else EMPTY
  }

  // ---- the loader

  /** The bounds-checked cursor over the file. */
  class Reader {
    const p: seq<Byte>
    var off: nat
    var ok: bool

    constructor (buf: seq<Byte>, start: nat)
      ensures p == buf && off == start && ok
    {
      p := buf;
      off := start;
      ok := true;
    }

    function At(): Cur
      reads this
    {
      Cur(off, ok)
    }

    method Check(bytes: nat) returns (r: bool)
      modifies this
      ensures At() == Need(p, old(At()), bytes) && r == ok
    {
      if !ok || off + bytes > |p| {
        ok := false;
        return false;
      }
      return true;
    }

    method ReadU8() returns (v: nat)
      modifies this
      ensures v == U8(p, old(At())) && At() == Skip(p, old(At()), 1)
    {
      var there := Check(1);
      if !there { return 0; }
      v := Value(p[off]);
      off := off + 1;
    }

    method ReadU16() returns (v: nat)
      modifies this
      ensures v == U16(p, old(At())) && At() == Skip(p, old(At()), 2)
    {
      var there := Check(2);
      if !there { return 0; }
      v := Value(p[off]) + 256 * Value(p[off + 1]);
      off := off + 2;
    }

    method ReadU32() returns (v: nat)
      modifies this
      ensures v == U32(p, old(At())) && At() == Skip(p, old(At()), 4)
    {
      var there := Check(4);
      if !there { return 0; }
      v := Value(p[off]) + 256 * (Value(p[off + 1]) + 256 * (Value(p[off + 2]) + 256 * Value(p[off + 3])));
      off := off + 4;
    }

    method ReadF64() returns (v: Double)
      modifies this
      ensures v == F64(p, old(At())) && At() == Skip(p, old(At()), 8)
    {
      var there := Check(8);
      if !there { return ZERO; }
      v := p[off..off + 8];
      off := off + 8;
    }

    /** One polyline: its points, and the box around them. */
    method ReadPolyline() returns (poly: Polyline)
      modifies this
      ensures (poly, At()) == Points(p, Skip(p, old(At()), 2), U16(p, old(At())), NOTHING)
    {
      var count := ReadU16();
      poly := NOTHING;
      var k := 0;
      ghost var goal := Points(p, At(), count, NOTHING);
      while k < count && ok
        invariant 0 <= k <= count
        invariant Points(p, At(), count - k, poly) == goal
      {
        var x := ReadU16();
        var y := ReadU16();
        poly := Grow(poly, QPoint(x, y));
        k := k + 1;
      }
    }

    method ReadLayer() returns (layer: Layer)
      modifies this
      ensures var c := Skip(p, Skip(p, Skip(p, old(At()), 1), 1), 2);
              var (ps, c2) := Polys(p, Skip(p, c, 4), U32(p, c), []);
              layer == Layer(U8(p, old(At())), ps) && At() == c2
    {
      var id := ReadU8();
      var flags := ReadU8();
      var reserved := ReadU16();
      var count := ReadU32();
      var polylines: seq<Polyline> := [];
      var i := 0;
      ghost var goal := Polys(p, At(), count, []);
      while i < count && ok
        invariant 0 <= i <= count
        invariant Polys(p, At(), count - i, polylines) == goal
      {
        var poly := ReadPolyline();
        if |poly.points| >= 2 {
          polylines := polylines + [poly];
        }
        i := i + 1;
      }
      layer := Layer(id, polylines);
    }

    method ReadLayers() returns (layers: seq<Layer>)
      modifies this
      ensures (layers, At()) == Layers(p, Skip(p, old(At()), 2), U16(p, old(At())), [])
    {
      var count := ReadU16();
      layers := [];
      var i := 0;
      ghost var goal := Layers(p, At(), count, []);
      while i < count && ok
        invariant 0 <= i <= count
        invariant Layers(p, At(), count - i, layers) == goal
      {
        var layer := ReadLayer();
        layers := layers + [layer];
        i := i + 1;
      }
    }
  }

  /** Loads a file, or gives the empty map on any error. */
  method Load(file: Option<seq<Byte>>) returns (map_: VectorMap)
    ensures map_ == Loaded(file)
  {
    if file.None? || |file.value| < 4 || file.value[..4] != MAGIC {
      return EMPTY;
    }
    var r := new Reader(file.value, 4);
    var version := r.ReadU8();
    var flags := r.ReadU8();
    var reserved := r.ReadU16();
    if version != 1 {
      return EMPTY;
    }
    var minLat := r.ReadF64();
    var minLon := r.ReadF64();
    var maxLat := r.ReadF64();
    var maxLon := r.ReadF64();
    var layers := r.ReadLayers();
    map_ := VectorMap(r.ok, minLat, minLon, maxLat, maxLon, layers);
  }

  // ---- reading back what was written

  lemma Read16(buf: seq<Byte>, off: nat, v: int)
    requires Sits(buf, off, LE16(v)) && 0 <= v < 65536
    ensures U16(buf, Cur(off, true)) == v && Skip(buf, Cur(off, true), 2) == Cur(off + 2, true)
  {
    var s := buf[off..off + 2];
    assert s[0] == buf[off] && s[1] == buf[off + 1];
  }

  lemma Read32(buf: seq<Byte>, off: nat, v: int)
    requires Sits(buf, off, LE32(v)) && 0 <= v < 4294967296
    ensures U32(buf, Cur(off, true)) == v && Skip(buf, Cur(off, true), 4) == Cur(off + 4, true)
  {
    var s := buf[off..off + 4];
    assert s[0] == buf[off] && s[1] == buf[off + 1] && s[2] == buf[off + 2] && s[3] == buf[off + 3];
  }

  function GrowAll(p: Polyline, qs: seq<QPoint>): Polyline
    decreases |qs|
  {
    if qs == [] then p else GrowAll(Grow(p, qs[0]), qs[1..])
  }

  // The polyline the loader builds from a list of points.
  function Traced(qs: seq<QPoint>): Polyline { GrowAll(NOTHING, qs) }

  // And the layer: polylines of fewer than two points are dropped.
  function KeptAll(ps: seq<Polyline>, lines: seq<seq<QPoint>>): seq<Polyline>
    decreases |lines|
  {
    if lines == [] then ps else KeptAll(Keep(ps, Traced(lines[0])), lines[1..])
  }

  lemma {:induction false} PointsBack(buf: seq<Byte>, off: nat, qs: seq<QPoint>, p: Polyline)
    requires Sits(buf, off, PointBytes(qs)) && forall q :: q in qs ==> Fits16(q.x) && Fits16(q.y)
    ensures Points(buf, Cur(off, true), |qs|, p) == (GrowAll(p, qs), Cur(off + |PointBytes(qs)|, true))
    decreases |qs|
  {
    if qs != [] {
      var q := qs[0];
      WrittenHead(buf, off, qs, EncPoint);
      hide Written, Sits;
      SitsConcat(buf, off, LE16(q.x), LE16(q.y));
      Read16(buf, off, q.x);
      Read16(buf, off + 2, q.y);
      PointsBack(buf, off + 4, qs[1..], Grow(p, q));
    }
  }

  lemma WrittenHead<T>(buf: seq<Byte>, off: nat, items: seq<T>, enc: T -> seq<Byte>)
    requires items != [] && Sits(buf, off, Written(items, enc))
    ensures Sits(buf, off, enc(items[0])) && Sits(buf, off + |enc(items[0])|, Written(items[1..], enc))
    ensures |Written(items, enc)| == |enc(items[0])| + |Written(items[1..], enc)|
  {
    SitsConcat(buf, off, enc(items[0]), Written(items[1..], enc));
  }

  lemma PolyBack(buf: seq<Byte>, off: nat, l: seq<QPoint>)
    requires Sits(buf, off, EncPoly(l)) && PackPoly(l)
    ensures Points(buf, Skip(buf, Cur(off, true), 2), U16(buf, Cur(off, true)), NOTHING)
         == (Traced(l), Cur(off + |EncPoly(l)|, true))
  {
    SitsConcat(buf, off, LE16(|l|), PointBytes(l));
    Read16(buf, off, |l|);
    PointsBack(buf, off + 2, l, NOTHING);
  }

  lemma PolysTurn(buf: seq<Byte>, off: nat, lines: seq<seq<QPoint>>, ps: seq<Polyline>, next: nat, end: nat)
    requires lines != []
    requires var c := Cur(off, true); Points(buf, Skip(buf, c, 2), U16(buf, c), NOTHING) == (Traced(lines[0]), Cur(next, true))
    requires var ps' := Keep(ps, Traced(lines[0]));
             Polys(buf, Cur(next, true), |lines| - 1, ps') == (KeptAll(ps', lines[1..]), Cur(end, true))
    ensures Polys(buf, Cur(off, true), |lines|, ps) == (KeptAll(ps, lines), Cur(end, true))
  {}

  lemma {:induction false} PolysBack(buf: seq<Byte>, off: nat, lines: seq<seq<QPoint>>, ps: seq<Polyline>)
    requires Sits(buf, off, PolyBytes(lines)) && forall l :: l in lines ==> PackPoly(l)
    ensures Polys(buf, Cur(off, true), |lines|, ps) == (KeptAll(ps, lines), Cur(off + |PolyBytes(lines)|, true))
    decreases |lines|
  {
    hide EncPoly, Traced, Points;
    if lines != [] {
      WrittenHead(buf, off, lines, EncPoly);
      PolyBack(buf, off, lines[0]);
      var next, p, tail := off + |EncPoly(lines[0])|, Traced(lines[0]), PolyBytes(lines[1..]);
      PolysBack(buf, next, lines[1..], Keep(ps, p));
      PolysTurn(buf, off, lines, ps, next, next + |tail|);
    }
  }

  function LayerOf(l: SourceLayer): Layer { Layer(l.id, KeptAll([], l.polylines)) }

  function LayersOf(ls: seq<Layer>, src: seq<SourceLayer>): seq<Layer>
    decreases |src|
  {
    if src == [] then ls else LayersOf(ls + [LayerOf(src[0])], src[1..])
  }

  lemma LayerHead(buf: seq<Byte>, off: nat, l: SourceLayer)
    requires Sits(buf, off, EncLayer(l)) && PackLayer(l)
    ensures U8(buf, Cur(off, true)) == l.id
    ensures Skip(buf, Skip(buf, Skip(buf, Cur(off, true), 1), 1), 2) == Cur(off + 4, true)
    ensures U32(buf, Cur(off + 4, true)) == |l.polylines| && Skip(buf, Cur(off + 4, true), 4) == Cur(off + 8, true)
    ensures Sits(buf, off + 8, PolyBytes(l.polylines)) && |EncLayer(l)| == 8 + |PolyBytes(l.polylines)|
  {
    var head: seq<Byte> := [Low(l.id), 0] + LE16(0);
    SitsConcat(buf, off, head, LE32(|l.polylines|) + PolyBytes(l.polylines));
    SitsConcat(buf, off + 4, LE32(|l.polylines|), PolyBytes(l.polylines));
    Read32(buf, off + 4, |l.polylines|);
    assert buf[off..off + 4][0] == buf[off];
  }

  // Reading a layer at off gives the layer of l and ends at next.
  ghost predicate ReadsLayer(buf: seq<Byte>, off: nat, l: SourceLayer, next: nat) {
    var c := Skip(buf, Skip(buf, Skip(buf, Cur(off, true), 1), 1), 2);
    && U8(buf, Cur(off, true)) == l.id
    && Polys(buf, Skip(buf, c, 4), U32(buf, c), []) == (LayerOf(l).polylines, Cur(next, true))
  }

  lemma ReadsLayerAt(buf: seq<Byte>, off: nat, l: SourceLayer, lines: seq<Byte>)
    requires PackLayer(l) && lines == PolyBytes(l.polylines)
    requires U8(buf, Cur(off, true)) == l.id
    requires Skip(buf, Skip(buf, Skip(buf, Cur(off, true), 1), 1), 2) == Cur(off + 4, true)
    requires U32(buf, Cur(off + 4, true)) == |l.polylines| && Skip(buf, Cur(off + 4, true), 4) == Cur(off + 8, true)
    requires Sits(buf, off + 8, lines)
    ensures ReadsLayer(buf, off, l, off + 8 + |lines|)
  {
    PolysBack(buf, off + 8, l.polylines, []);
  }

  lemma LayerBack(buf: seq<Byte>, off: nat, l: SourceLayer)
    requires Sits(buf, off, EncLayer(l)) && PackLayer(l)
    ensures ReadsLayer(buf, off, l, off + |EncLayer(l)|)
  {
    LayerHead(buf, off, l);
    ReadsLayerAt(buf, off, l, PolyBytes(l.polylines));
  }

  // The layers of src stand one after the other from off to end.
  ghost predicate Chain(buf: seq<Byte>, off: nat, src: seq<SourceLayer>, end: nat)
    decreases |src|
  {
    if src == [] then off == end
    else exists next: nat :: ReadsLayer(buf, off, src[0], next) && Chain(buf, next, src[1..], end)
  }

  lemma {:induction false} ChainReads(buf: seq<Byte>, off: nat, src: seq<SourceLayer>, end: nat, ls: seq<Layer>)
    requires Chain(buf, off, src, end)
    ensures Layers(buf, Cur(off, true), |src|, ls) == (LayersOf(ls, src), Cur(end, true))
    decreases |src|
  {
    if src != [] {
      var next: nat :| ReadsLayer(buf, off, src[0], next) && Chain(buf, next, src[1..], end);
      ChainReads(buf, next, src[1..], end, ls + [LayerOf(src[0])]);
    }
  }

  lemma ChainCons(buf: seq<Byte>, off: nat, src: seq<SourceLayer>, next: nat, end: nat)
    requires src != [] && ReadsLayer(buf, off, src[0], next) && Chain(buf, next, src[1..], end)
    ensures Chain(buf, off, src, end)
  {}

  lemma {:induction false} ChainWritten(buf: seq<Byte>, off: nat, src: seq<SourceLayer>)
    requires Sits(buf, off, LayerBytes(src)) && forall l :: l in src ==> PackLayer(l)
    ensures Chain(buf, off, src, off + |LayerBytes(src)|)
    decreases |src|
  {
    hide EncLayer, ReadsLayer;
    if src != [] {
      hide Chain;
      WrittenHead(buf, off, src, EncLayer);
      LayerBack(buf, off, src[0]);
      var next := off + |EncLayer(src[0])|;
      ChainWritten(buf, next, src[1..]);
      ChainCons(buf, off, src, next, next + |LayerBytes(src[1..])|);
    }
  }

  lemma ReadDouble(buf: seq<Byte>, off: nat, d: Double)
    requires Sits(buf, off, d)
    ensures F64(buf, Cur(off, true)) == d && Skip(buf, Cur(off, true), 8) == Cur(off + 8, true)
  {}

  lemma HeaderBack(buf: seq<Byte>, m: Source)
    requires Packable(m) && Sits(buf, 0, EncHeader(m))
    ensures Recognised(buf) && Sits(buf, 8, m.ymin) && Sits(buf, 16, m.xmin)
    ensures Sits(buf, 24, m.ymax) && Sits(buf, 32, m.xmax) && Sits(buf, 40, LE16(|m.layers|))
    ensures |EncHeader(m)| == 42
  {
    var n := LE16(|m.layers|);
    var t4 := m.xmax + n;
    var t3 := m.ymax + t4;
    var t2 := m.xmin + t3;
    var t1 := m.ymin + t2;
    SitsConcat(buf, 0, MAGIC, [VERSION, 0] + (LE16(0) + t1));
    SitsConcat(buf, 4, [VERSION, 0], LE16(0) + t1);
    SitsConcat(buf, 6, LE16(0), t1);
    SitsConcat(buf, 8, m.ymin, t2);
    SitsConcat(buf, 16, m.xmin, t3);
    SitsConcat(buf, 24, m.ymax, t4);
    SitsConcat(buf, 32, m.xmax, n);
    assert buf[4..6][0] == buf[4];
  }

  // The map that a source loads as.
  function MapOf(m: Source): VectorMap {
    VectorMap(true, m.ymin, m.xmin, m.ymax, m.xmax, LayersOf([], m.layers))
  }

  // The body of a file that starts with an encoded map, whatever follows.
  lemma BodyBack(m: Source, buf: seq<Byte>)
    requires Packable(m) && Sits(buf, 0, Encode(m))
    ensures Recognised(buf) && Body(buf) == (MapOf(m), Cur(|Encode(m)|, true))
  {
    hide EncHeader, LayerBytes, Body, Layers, LayersOf, Chain;
    var head, tail := EncHeader(m), LayerBytes(m.layers);
    SitsConcat(buf, 0, head, tail);
    HeaderBack(buf, m);
    BodyFields(buf, m);
    ChainWritten(buf, 42, m.layers);
    ChainReads(buf, 42, m.layers, 42 + |tail|, []);
  }

  lemma BodyFields(buf: seq<Byte>, m: Source)
    requires |buf| >= 4 && |m.layers| < 65536
    requires Sits(buf, 8, m.ymin) && Sits(buf, 16, m.xmin) && Sits(buf, 24, m.ymax) && Sits(buf, 32, m.xmax)
    requires Sits(buf, 40, LE16(|m.layers|))
    ensures var (ls, c) := Layers(buf, Cur(42, true), |m.layers|, []);
            Body(buf) == (VectorMap(c.ok, m.ymin, m.xmin, m.ymax, m.xmax, ls), c)
  {
    ReadDouble(buf, 8, m.ymin);
    ReadDouble(buf, 16, m.xmin);
    ReadDouble(buf, 24, m.ymax);
    ReadDouble(buf, 32, m.xmax);
    Read16(buf, 40, |m.layers|);
  }

  // Round trip: loading what the writer wrote, with anything appended, gives the
  // map of the source.
  lemma RoundTrip(m: Source, rest: seq<Byte>)
    requires Packable(m)
    ensures Loaded(Some(Encode(m) + rest)) == MapOf(m)
  {
    assert Sits(Encode(m) + rest, 0, Encode(m));
    BodyBack(m, Encode(m) + rest);
  }

  // ---- the map that comes back

  // The loaded box of a polyline is tight: it bounds every point and touches one
  // on each side.
  ghost predicate Tight(p: Polyline) {
    && p.points != []
    && (forall q :: q in p.points ==> p.lo.x <= q.x <= p.hi.x && p.lo.y <= q.y <= p.hi.y)
    && (exists q :: q in p.points && q.x == p.lo.x) && (exists q :: q in p.points && q.x == p.hi.x)
    && (exists q :: q in p.points && q.y == p.lo.y) && (exists q :: q in p.points && q.y == p.hi.y)
  }

  lemma GrowTight(p: Polyline, q: QPoint)
    requires p == NOTHING || Tight(p)
    requires Fits16(q.x) && Fits16(q.y)
    ensures Tight(Grow(p, q))
  {
    var g := Grow(p, q);
    assert q in g.points;
    forall e | e in p.points ensures e in g.points {}
  }

  lemma {:induction false} GrowAllPoints(p: Polyline, qs: seq<QPoint>)
    ensures GrowAll(p, qs).points == p.points + qs
    decreases |qs|
  {
    if qs != [] {
      GrowAllPoints(Grow(p, qs[0]), qs[1..]);
    }
  }

  lemma {:induction false} GrowAllTight(p: Polyline, qs: seq<QPoint>)
    requires (p == NOTHING && qs != []) || Tight(p)
    requires forall k :: 0 <= k < |qs| ==> Fits16(qs[k].x) && Fits16(qs[k].y)
    ensures Tight(GrowAll(p, qs))
    decreases |qs|
  {
    if qs != [] {
      GrowTight(p, qs[0]);
      GrowAllTight(Grow(p, qs[0]), qs[1..]);
    }
  }

  lemma TracedTight(l: seq<QPoint>)
    requires PackPoly(l) && l != []
    ensures Traced(l).points == l && Tight(Traced(l))
  {
    GrowAllPoints(NOTHING, l);
    forall k | 0 <= k < |l| ensures Fits16(l[k].x) && Fits16(l[k].y) { assert l[k] in l; }
    GrowAllTight(NOTHING, l);
  }

  // The polylines of two points or more, in order.
  function LongOnes(lines: seq<seq<QPoint>>): seq<seq<QPoint>>
    decreases |lines|
  {
    if lines == [] then [] else (if |lines[0]| >= 2 then [lines[0]] else []) + LongOnes(lines[1..])
  }

  function TraceAll(lines: seq<seq<QPoint>>): (ps: seq<Polyline>)
    ensures |ps| == |lines|
  {
    seq(|lines|, i requires 0 <= i < |lines| => Traced(lines[i]))
  }

  // Just those come back.
  lemma {:induction false} KeptAllAt(ps: seq<Polyline>, lines: seq<seq<QPoint>>)
    ensures KeptAll(ps, lines) == ps + TraceAll(LongOnes(lines))
    decreases |lines|
  {
    if lines != [] {
      var p, rest := Traced(lines[0]), LongOnes(lines[1..]);
      GrowAllPoints(NOTHING, lines[0]);
      assert Keep(ps, p) == if |lines[0]| >= 2 then ps + [p] else ps;
      hide Keep, Traced;
      KeptAllAt(Keep(ps, p), lines[1..]);
      if |lines[0]| >= 2 {
        assert TraceAll([lines[0]] + rest) == [p] + TraceAll(rest);
        assert ps + [p] + TraceAll(rest) == ps + ([p] + TraceAll(rest));
      } else {
        assert [] + rest == rest;
      }
    }
  }

  lemma {:induction false} LongOnesOf(lines: seq<seq<QPoint>>, k: nat)
    requires k < |LongOnes(lines)|
    ensures LongOnes(lines)[k] in lines && |LongOnes(lines)[k]| >= 2
    decreases |lines|
  {
    var head := if |lines[0]| >= 2 then 1 else 0;
    if k >= head { LongOnesOf(lines[1..], k - head); }
  }

  lemma {:induction false} LayersOfAt(ls: seq<Layer>, src: seq<SourceLayer>, i: nat)
    requires i < |src|
    ensures |LayersOf(ls, src)| == |ls| + |src|
    ensures forall k :: 0 <= k < |ls| ==> LayersOf(ls, src)[k] == ls[k]
    ensures LayersOf(ls, src)[|ls| + i] == LayerOf(src[i])
    decreases |src|
  {
    var next := ls + [LayerOf(src[0])];
    if i > 0 {
      LayersOfAt(next, src[1..], i - 1);
    } else if |src| > 1 {
      LayersOfAt(next, src[1..], 0);
      assert LayersOf(next, src[1..])[|ls|] == next[|ls|];
    }
  }

  function PointsOf(ps: seq<Polyline>): seq<seq<QPoint>> {
    seq(|ps|, k requires 0 <= k < |ps| => ps[k].points)
  }

  // A loaded layer holds, point by point, the polylines of two points or more of the
  // source layer, each with a tight box.
  ghost predicate LayerIs(l: Layer, src: SourceLayer) {
    && l.id == src.id && PointsOf(l.polylines) == LongOnes(src.polylines)
    && forall k :: 0 <= k < |l.polylines| ==> Tight(l.polylines[k])
  }

  // The map of a source is valid, with its box and its layers.
  lemma MapOfSource(m: Source)
    requires Packable(m)
    ensures var v := MapOf(m);
            && v.valid && (v.minLat, v.minLon, v.maxLat, v.maxLon) == (m.ymin, m.xmin, m.ymax, m.xmax)
            && |v.layers| == |m.layers|
            && forall i :: 0 <= i < |v.layers| ==> LayerIs(v.layers[i], m.layers[i])
  {
    var v := MapOf(m);
    if m.layers != [] { LayersOfAt([], m.layers, 0); }
    forall i | 0 <= i < |v.layers| ensures LayerIs(v.layers[i], m.layers[i]) {
      LayersOfAt([], m.layers, i);
      assert m.layers[i] in m.layers;
      LayerOfIs(m.layers[i]);
    }
  }

  lemma LayerOfIs(src: SourceLayer)
    requires PackLayer(src)
    ensures LayerIs(LayerOf(src), src)
  {
    var long := LongOnes(src.polylines);
    KeptAllAt([], src.polylines);
    assert LayerOf(src).polylines == TraceAll(long);
    forall k | 0 <= k < |long| ensures Tight(TraceAll(long)[k]) && TraceAll(long)[k].points == long[k] {
      LongOnesOf(src.polylines, k);
      TracedTight(long[k]);
    }
  }

  // ---- truncation

  // A read that succeeds on a file succeeds the same way on any longer one.
  lemma LongerRead(buf: seq<Byte>, rest: seq<Byte>, c: Cur, n: nat)
    requires Skip(buf, c, n).ok
    ensures Skip(buf + rest, c, n) == Skip(buf, c, n) && Skip(buf, c, n).off <= |buf|
    ensures n >= 1 ==> U8(buf + rest, c) == U8(buf, c)
    ensures n >= 2 ==> U16(buf + rest, c) == U16(buf, c)
    ensures n >= 4 ==> U32(buf + rest, c) == U32(buf, c)
    ensures n >= 8 ==> F64(buf + rest, c) == F64(buf, c)
  {
    if n >= 8 { assert (buf + rest)[c.off..c.off + 8] == buf[c.off..c.off + 8]; }
  }

  lemma {:induction false} LongerPoints(buf: seq<Byte>, rest: seq<Byte>, c: Cur, n: nat, p: Polyline)
    requires Points(buf, c, n, p).1.ok
    ensures c.ok && Points(buf + rest, c, n, p) == Points(buf, c, n, p)
    ensures c.off <= |buf| ==> Points(buf, c, n, p).1.off <= |buf|
    decreases n
  {
    if n > 0 && c.ok {
      var c1 := Skip(buf, c, 2);
      var c2 := Skip(buf, c1, 2);
      LongerPoints(buf, rest, c2, n - 1, Grow(p, QPoint(U16(buf, c), U16(buf, c1))));
      LongerRead(buf, rest, c1, 2);
      LongerRead(buf, rest, c, 2);
    }
  }

  lemma {:induction false} LongerPolys(buf: seq<Byte>, rest: seq<Byte>, c: Cur, n: nat, ps: seq<Polyline>)
    requires Polys(buf, c, n, ps).1.ok
    ensures c.ok && Polys(buf + rest, c, n, ps) == Polys(buf, c, n, ps)
    ensures c.off <= |buf| ==> Polys(buf, c, n, ps).1.off <= |buf|
    decreases n
  {
    if n > 0 && c.ok {
      var c1, count := Skip(buf, c, 2), U16(buf, c);
      var (p, c2) := Points(buf, c1, count, NOTHING);
      LongerPolys(buf, rest, c2, n - 1, Keep(ps, p));
      LongerPoints(buf, rest, c1, count, NOTHING);
      LongerRead(buf, rest, c, 2);
    }
  }

  lemma {:induction false} LongerLayers(buf: seq<Byte>, rest: seq<Byte>, c: Cur, n: nat, ls: seq<Layer>)
    requires Layers(buf, c, n, ls).1.ok
    ensures c.ok && Layers(buf + rest, c, n, ls) == Layers(buf, c, n, ls)
    ensures c.off <= |buf| ==> Layers(buf, c, n, ls).1.off <= |buf|
    decreases n
  {
    if n > 0 && c.ok {
      var a := Skip(buf, c, 1);
      var b := Skip(buf, a, 1);
      var c1 := Skip(buf, b, 2);
      var d := Skip(buf, c1, 4);
      var (ps, c2) := Polys(buf, d, U32(buf, c1), []);
      LongerLayers(buf, rest, c2, n - 1, ls + [Layer(U8(buf, c), ps)]);
      LongerPolys(buf, rest, d, U32(buf, c1), []);
      LongerRead(buf, rest, c1, 4);
      LongerRead(buf, rest, b, 2);
      LongerRead(buf, rest, a, 1);
      LongerRead(buf, rest, c, 1);
    }
  }

  lemma LongerBody(buf: seq<Byte>, rest: seq<Byte>)
    requires |buf| >= 4 && Body(buf).1.ok
    ensures Body(buf + rest) == Body(buf) && Body(buf).1.off <= |buf|
  {
    var a := Skip(buf, Cur(4, true), 1);
    var b := Skip(buf, a, 1);
    var c0 := Skip(buf, b, 2);
    var c1 := Skip(buf, c0, 8);
    var c2 := Skip(buf, c1, 8);
    var c3 := Skip(buf, c2, 8);
    var c4 := Skip(buf, c3, 8);
    LongerLayers(buf, rest, Skip(buf, c4, 2), U16(buf, c4), []);
    LongerRead(buf, rest, c4, 2);
    LongerRead(buf, rest, c3, 8);
    LongerRead(buf, rest, c2, 8);
    LongerRead(buf, rest, c1, 8);
    LongerRead(buf, rest, c0, 8);
    LongerRead(buf, rest, b, 2);
    LongerRead(buf, rest, a, 1);
    LongerRead(buf, rest, Cur(4, true), 1);
  }

  // Bytes appended to any valid file change nothing.
  lemma AppendedIgnored(buf: seq<Byte>, rest: seq<Byte>)
    requires Loaded(Some(buf)).valid
    ensures Loaded(Some(buf + rest)) == Loaded(Some(buf))
  {
    LongerBody(buf, rest);
    LongerRead(buf, rest, Cur(4, true), 1);
    assert (buf + rest)[..4] == buf[..4];
  }

  // Every strict prefix of a written file is rejected.
  lemma {:induction false} PrefixRejected(m: Source, n: nat)
    requires Packable(m) && n < |Encode(m)|
    ensures !Loaded(Some(Encode(m)[..n])).valid
  {
    hide Body, Encode, MapOf;
    var file := Encode(m);
    var buf, rest := file[..n], file[n..];
    if Loaded(Some(buf)).valid {
      assert buf + rest == file;
      LongerBody(buf, rest);
      assert Sits(file, 0, Encode(m));
      BodyBack(m, file);
      assert false;
    }
  }
}
