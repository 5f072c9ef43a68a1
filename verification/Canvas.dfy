// A row-major pixel buffer and what a list of pixel writes does to it.
module Canvas {
  import opened Ints

  type Color = bv16

  type Pixel = (int, int)

  // Pixel (x, y) belongs to the canvas.
  predicate On(w: int, h: int, p: Pixel) {
    0 <= p.0 < w && 0 <= p.1 < h
  }

  // The buffer holds every pixel of the canvas.
  predicate Holds(size: nat, w: int, h: int) {
    w > 0 && h > 0 ==> w * h <= size
  }

  function Offset(w: int, p: Pixel): int { p.1 * w + p.0 }

  lemma OffsetInside(size: nat, w: int, h: int, p: Pixel)
    requires Holds(size, w, h) && On(w, h, p)
    ensures 0 <= Offset(w, p) < size
  {
    ProductMonotone(0, p.1, w);
    ProductMonotone(p.1 + 1, h, w);
    Distribute(p.1, 1, w);
  }

  lemma OffsetInjective(w: int, h: int, p: Pixel, q: Pixel)
    requires On(w, h, p) && On(w, h, q) && Offset(w, p) == Offset(w, q)
    ensures p == q
  {
    if p.1 < q.1 {
      ProductMonotone(p.1 + 1, q.1, w);
      Distribute(p.1, 1, w);
    } else if q.1 < p.1 {
      ProductMonotone(q.1 + 1, p.1, w);
      Distribute(q.1, 1, w);
    }
  }

  // One clipped write.
  function Put(buf: seq<Color>, w: int, h: int, p: Pixel, color: Color): (r: seq<Color>)
    requires Holds(|buf|, w, h)
    ensures |r| == |buf|
  {
    if On(w, h, p) then
      OffsetInside(|buf|, w, h, p);
      buf[Offset(w, p) := color]
    else buf
  }

  // Clipped writes in order.
  function Paint(buf: seq<Color>, w: int, h: int, pixels: seq<Pixel>, color: Color): (r: seq<Color>)
    requires Holds(|buf|, w, h)
    ensures |r| == |buf|
  {
    if pixels == [] then buf
    else Put(Paint(buf, w, h, pixels[..|pixels| - 1], color), w, h, pixels[|pixels| - 1], color)
  }

  lemma PaintNothing(buf: seq<Color>, w: int, h: int, color: Color)
    requires Holds(|buf|, w, h)
    ensures Paint(buf, w, h, [], color) == buf
  {}

  lemma PaintMore(buf: seq<Color>, w: int, h: int, pixels: seq<Pixel>, p: Pixel, color: Color)
    requires Holds(|buf|, w, h)
    ensures Paint(buf, w, h, pixels + [p], color) == Put(Paint(buf, w, h, pixels, color), w, h, p, color)
  {
    assert (pixels + [p])[..|pixels|] == pixels;
  }

  lemma {:induction false} PaintConcat(buf: seq<Color>, w: int, h: int, ps: seq<Pixel>, qs: seq<Pixel>, color: Color)
    requires Holds(|buf|, w, h)
    ensures Paint(buf, w, h, ps + qs, color) == Paint(Paint(buf, w, h, ps, color), w, h, qs, color)
  {
    if qs == [] {
      assert ps + qs == ps;
    } else {
      var n := |qs| - 1;
      PaintConcat(buf, w, h, ps, qs[..n], color);
      assert (ps + qs)[..|ps + qs| - 1] == ps + qs[..n];
    }
  }

  // A canvas pixel has the colour exactly when it was written; nothing else moves.
  lemma {:induction false} PaintAt(buf: seq<Color>, w: int, h: int, pixels: seq<Pixel>, color: Color, p: Pixel)
    requires Holds(|buf|, w, h) && On(w, h, p)
    ensures 0 <= Offset(w, p) < |buf|
    ensures Paint(buf, w, h, pixels, color)[Offset(w, p)] == if p in pixels then color else buf[Offset(w, p)]
  {
    OffsetInside(|buf|, w, h, p);
    if pixels != [] {
      var n := |pixels| - 1;
      PaintAt(buf, w, h, pixels[..n], color, p);
      assert pixels == pixels[..n] + [pixels[n]];
      if On(w, h, pixels[n]) && Offset(w, pixels[n]) == Offset(w, p) {
        OffsetInjective(w, h, pixels[n], p);
      }
    }
  }

  // A cell past the canvas, or of a canvas the list never visits, keeps its value.
  lemma {:induction false} PaintElsewhere(buf: seq<Color>, w: int, h: int, pixels: seq<Pixel>, color: Color, i: nat)
    requires Holds(|buf|, w, h) && i < |buf|
    requires forall p :: p in pixels && On(w, h, p) ==> Offset(w, p) != i
    ensures Paint(buf, w, h, pixels, color)[i] == buf[i]
  {
    if pixels != [] {
      var n := |pixels| - 1;
      PaintElsewhere(buf, w, h, pixels[..n], color, i);
      assert pixels[n] in pixels;
      if On(w, h, pixels[n]) { OffsetInside(|buf|, w, h, pixels[n]); }
    }
  }

  /** The bounds-checked write every kernel does. */
  method PutPixel(buf: array<Color>, w: int, h: int, x: int, y: int, color: Color)
    requires Holds(buf.Length, w, h)
    modifies buf
    ensures buf[..] == Put(old(buf[..]), w, h, (x, y), color)
  {
    if 0 <= x < w && 0 <= y < h {
      OffsetInside(buf.Length, w, h, (x, y));
      buf[y * w + x] := color;
    }
  }

  /** The write without a test: the caller stays on the canvas. */
  method SetPixel(buf: array<Color>, w: int, h: int, x: int, y: int, color: Color)
    requires Holds(buf.Length, w, h) && On(w, h, (x, y))
    modifies buf
    ensures buf[..] == Put(old(buf[..]), w, h, (x, y), color)
  {
    OffsetInside(buf.Length, w, h, (x, y));
    buf[y * w + x] := color;
  }

  // The buffer now shows exactly the pixels of a region over what it showed before.
  ghost predicate Painted(was: seq<Color>, now: seq<Color>, w: int, h: int, color: Color, region: Pixel -> bool)
    requires Holds(|was|, w, h)
  {
    exists ps :: Lists(ps, w, h, region) && now == Paint(was, w, h, ps, color)
  }

  ghost predicate Lists(ps: seq<Pixel>, w: int, h: int, region: Pixel -> bool) {
    forall p :: On(w, h, p) ==> (p in ps <==> region(p))
  }

  lemma PaintedAt(was: seq<Color>, now: seq<Color>, w: int, h: int, color: Color, region: Pixel -> bool, p: Pixel)
    requires Holds(|was|, w, h) && Painted(was, now, w, h, color, region) && On(w, h, p)
    ensures 0 <= Offset(w, p) < |was| == |now|
    ensures now[Offset(w, p)] == if region(p) then color else was[Offset(w, p)]
  {
    var ps :| Lists(ps, w, h, region) && now == Paint(was, w, h, ps, color);
    PaintAt(was, w, h, ps, color, p);
  }
}
