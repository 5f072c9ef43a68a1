// The cached base map (toolkit/src/map/map_renderer.cpp): the pixels of the last
// drawing, copied again while nothing it depends on has changed.
module BaseMapCache {
  import opened Canvas
  import opened Renderer
  import R = Rmap

  // The maps do not change; a map is known by its address.
  type Address = nat

  // The buffer has room for the canvas.
  predicate Room(buf: array<Color>, vp: Viewport) { 0 < vp.width && 0 < vp.height && 0 <= vp.width * vp.height <= buf.Length }

  method Copy(pixels: seq<Color>, buf: array<Color>)
    requires |pixels| <= buf.Length
    modifies buf
    ensures buf[..|pixels|] == pixels && buf[|pixels|..] == old(buf[|pixels|..])
  {
    for i := 0 to |pixels|
      invariant forall k :: 0 <= k < i ==> buf[k] == pixels[k]
      invariant buf[|pixels|..] == old(buf[|pixels|..])
    {
      buf[i] := pixels[i];
    }
  }

  class Cache {
    const g: Geo
    const maps: Address -> R.VectorMap
    // What the caller prepares before a draw: it depends on the style and the size.
    ghost const background: (Style, int, int) -> seq<Color>
    var pixels: seq<Color>
    var last: Viewport
    var lastStyle: Style
    var lastMap: Address
    var valid: bool

    ghost predicate Valid()
      reads this
    {
      valid ==>
        && last.width > 0 && last.height > 0 && |pixels| == last.width * last.height
        && |background(lastStyle, last.width, last.height)| == |pixels|
        && ShowsBase(Scene(g, last, maps(lastMap), lastStyle), background(lastStyle, last.width, last.height), pixels)
    }

    constructor (g: Geo, maps: Address -> R.VectorMap, ghost background: (Style, int, int) -> seq<Color>)
      ensures Valid() && !valid && this.g == g && this.maps == maps && this.background == background
    {
      this.g, this.maps, this.background := g, maps, background;
      pixels, valid, lastMap := [], false, 0;
      last := Viewport(0, 0, 0, 0, 0, 0.0, 0.0, 1.0, true);
      lastStyle := Style(0, 0, 0, 0, true, true);
    }

    /** Copies the last drawing, or draws. Either way the canvas shows the base map
        of this view, map and style over the prepared background. */
    method Draw(buf: array?<Color>, vp: Viewport, map_: Address, style: Style)
      requires Valid() && MapOk(maps(map_))
      requires buf != null && vp.width > 0 && vp.height > 0 ==>
                 Room(buf, vp) && buf[..vp.width * vp.height] == background(style, vp.width, vp.height)
      modifies this, if buf == null then {} else {buf}
      ensures Valid()
      ensures buf != null && vp.width > 0 && vp.height > 0 ==>
                var n := vp.width * vp.height;
                && ShowsBase(Scene(g, vp, maps(map_), style), background(style, vp.width, vp.height), buf[..n])
                && buf[n..] == old(buf[n..])
      ensures buf != null && vp.width > 0 && vp.height > 0 ==>
                valid && last == vp && lastStyle == style && lastMap == map_ && pixels == buf[..vp.width * vp.height]
      ensures buf != null && (vp.width <= 0 || vp.height <= 0) ==> buf[..] == old(buf[..])
    {
      hide ShowsBase;
      if buf == null || vp.width <= 0 || vp.height <= 0 {
        return;
      }
      var n := vp.width * vp.height;
      if valid && lastMap == map_ && SameView(last, vp) && lastStyle == style && |pixels| == n {
        Copy(pixels, buf);
        return;
      }
      ghost var was := buf[..];
      DrawBase(buf, Scene(g, vp, maps(map_), style));
      BaseOfCanvas(Scene(g, vp, maps(map_), style), was, buf[..]);
      assert buf[..][..n] == buf[..n] && buf[..][n..] == buf[n..] && was[..n] == old(buf[..n]) && was[n..] == old(buf[n..]);
      pixels := buf[..n];
      last := vp;
      lastStyle := style;
      lastMap := map_;
      valid := true;
    }
  }

  predicate SameView(a: Viewport, b: Viewport) {
    && a.width == b.width && a.height == b.height && a.cx == b.cx && a.cy == b.cy
    && a.radius == b.radius && a.lat == b.lat && a.lon == b.lon
    && a.range == b.range && a.mercator == b.mercator
  }
}
