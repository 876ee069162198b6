/**
  The two rounded-rectangle rasterisers of the application toolkit (tools/ridux_ui.h): one
  fills three rectangles and four mirrored corner arcs, the other asks a clip function for the
  opacity of every pixel.  Both are proved to paint the same picture.
 */
module UiPaint {
  import opened Machine
  import opened Pixels
  import opened Products
  import Clip

  // ----- Colour ----------------------------------------------------------------------------------

  /** One channel of rdui_blend: rounded division by 255. */
  function BlendChannel(d: Byte, s: Byte, alpha: Byte): (b: Byte)
    ensures s <= b <= d || d <= b <= s
  {
    WeightedBetween(s, d, alpha, 255);
    (s * alpha + d * (255 - alpha) + 127) / 255
  }

  function Blend(dst: Pixel, src: Pixel, alpha: UInt32): Pixel {
    if alpha == 0 then dst
    else if alpha >= 255 then Opaque(src)
    else Pack(BlendChannel(Get(dst, Red), Get(src, Red), alpha),
              BlendChannel(Get(dst, Green), Get(src, Green), alpha),
              BlendChannel(Get(dst, Blue), Get(src, Blue), alpha))
  }

  function MixChannel(a: Byte, b: Byte, t: Byte): (c: Byte)
    ensures a == b ==> c == a
  {
    WeightedBetween(b, a, t, 255);
    (a * (255 - t) + b * t) / 255
  }

  function Mix(a: Pixel, b: Pixel, t: Byte): Pixel {
    Pack(MixChannel(Get(a, Red), Get(b, Red), t),
         MixChannel(Get(a, Green), Get(b, Green), t),
         MixChannel(Get(a, Blue), Get(b, Blue), t))
  }

  /** Blending is mixing with weights alpha and 255 - alpha, rounded to nearest, channel by channel. */
  lemma BlendByChannel(dst: Pixel, src: Pixel, alpha: UInt32, c: Channel)
    ensures alpha == 0 ==> Blend(dst, src, alpha) == dst
    ensures alpha >= 255 ==> Blend(dst, src, alpha) == src % 0x100_0000
    ensures 0 < alpha < 255 ==>
              var mixed := Get(src, c) * alpha + Get(dst, c) * (255 - alpha);
              Blend(dst, src, alpha) < 0x100_0000 && -127 <= 255 * Get(Blend(dst, src, alpha), c) - mixed <= 127
  {
    hide Get;
    if 0 < alpha < 255 {
      ChannelNearest(Get(dst, Red), Get(src, Red), alpha);
      ChannelNearest(Get(dst, Green), Get(src, Green), alpha);
      ChannelNearest(Get(dst, Blue), Get(src, Blue), alpha);
      hide BlendChannel, Pack;
      PackIs(BlendChannel(Get(dst, Red), Get(src, Red), alpha), BlendChannel(Get(dst, Green), Get(src, Green), alpha),
             BlendChannel(Get(dst, Blue), Get(src, Blue), alpha));
    }
  }

  lemma ChannelNearest(d: Byte, s: Byte, alpha: Byte)
    ensures -127 <= 255 * BlendChannel(d, s, alpha) - (s * alpha + d * (255 - alpha)) <= 127
  {}

  lemma MixByChannel(a: Pixel, b: Pixel, t: Byte, c: Channel)
    ensures Get(Mix(a, b, t), c) == MixChannel(Get(a, c), Get(b, c), t)
  {
    hide Get, MixChannel;
  }

  /** A gradient between equal colours paints like the colour itself. */
  lemma FlatGradient(dst: Pixel, c: Pixel, t: Byte, alpha: UInt32)
    ensures Blend(dst, Mix(c, c, t), alpha) == Blend(dst, c, alpha)
  {
    hide MixChannel, BlendChannel;
    OpaqueIsPacked(c);
  }

  // ----- The shape -------------------------------------------------------------------------------

  /** The radius both rasterisers end up with. */
  function Radius(ww: int, hh: int, r: int): int {
    if r < 2 then r
    else
      var r1 := if r * 2 > ww then ww / 2 else r;
      if r1 * 2 > hh then hh / 2 else r1
  }

  /** The radius asked for, as far as two of it fit side by side; none to speak of stays what it is. */
  lemma RadiusIsGreatest(ww: int, hh: int, r: int)
    requires ww > 0 && hh > 0
    ensures r < 2 ==> Radius(ww, hh, r) == r
    ensures r >= 2 ==>
              var s := Radius(ww, hh, r);
              && s <= r && 2 * s <= ww && 2 * s <= hh
              && forall u :: u <= r && 2 * u <= ww && 2 * u <= hh ==> u <= s
  {}

  /** `(alpha * (rd_u32)(outer - d2 + 1)) / (rd_u32)(outer - inner + 1)`, wrapping as it does. */
  function EdgeAlpha(d2: int, outer: int, inner: int, alpha: UInt32): (a: UInt32)
    requires inner <= outer
  {
    var scaled := (alpha * Unsigned(outer - d2 + 1)) % TWO_32;
    QuotientFits(scaled, outer - inner + 1);
    scaled / (outer - inner + 1)
  }

  /** Opacity at squared distance `d2` from the centre of an arc of radius `r`. */
  function ArcAlpha(d2: int, r: int, alpha: UInt32): (a: UInt32)
    requires r >= 2
  {
    var outer, inner := r * r, (r - 1) * (r - 1);
    SquareGap(r);
    if d2 > outer then 0
    else if d2 <= inner then alpha
    else EdgeAlpha(d2, outer, inner, alpha)
  }

  /**
    The opacity along an arc falls in even steps over the ring between the two circles: full on
    the inner one, almost none on the outer one.  Radii below 2^23 keep the product in 32 bits.
   */
  lemma ArcFalls(d2: int, r: int, alpha: Byte)
    requires 2 <= r < 0x80_0000 && d2 >= 0
    ensures var outer, inner, a := r * r, (r - 1) * (r - 1), ArcAlpha(d2, r, alpha);
            && (d2 <= inner ==> a == alpha)
            && (inner < d2 <= outer ==> a * (2 * r) <= alpha * (outer - d2 + 1) < (a + 1) * (2 * r))
            && (d2 > outer ==> a == 0)
  {
    SquareGap(r);
    var outer, inner := r * r, (r - 1) * (r - 1);
    if inner < d2 <= outer {
      var v := outer - d2 + 1;
      MulLe(alpha, v, 255, 2 * r);
      MulLe(0, 0, alpha, v);
      EdgeIs(alpha * v, 2 * r);
      assert Unsigned(v) == v && outer - inner + 1 == 2 * r;
    }
  }

  lemma EdgeIs(x: nat, n: nat)
    requires x < TWO_32 && n > 0
    ensures var q := x % TWO_32 / n; q * n <= x < (q + 1) * n
  {
    var q := x / n;
    assert x == q * n + x % n;
    MulSucc(q, n);
  }

  lemma ArcFallsWithDistance(d2: nat, e2: nat, r: int, alpha: Byte)
    requires 2 <= r < 0x80_0000 && d2 <= e2
    ensures ArcAlpha(e2, r, alpha) <= ArcAlpha(d2, r, alpha) <= alpha
  {
    hide ArcAlpha;
    ArcFalls(d2, r, alpha);
    ArcFalls(e2, r, alpha);
    SquareGap(r);
    var a, b, outer := ArcAlpha(d2, r, alpha), ArcAlpha(e2, r, alpha), r * r;
    var inner := (r - 1) * (r - 1);
    if inner < d2 <= outer {
      MulLe(alpha, outer - d2 + 1, alpha, 2 * r);
      NotAbove(a, alpha, 2 * r);
    }
    if inner < e2 <= outer {
      MulLe(alpha, outer - e2 + 1, alpha, 2 * r);
      NotAbove(b, alpha, 2 * r);
      if inner < d2 {
        MulLe(alpha, outer - e2 + 1, alpha, outer - d2 + 1);
        NotAbove(b, a, 2 * r);
      }
    }
  }

  lemma NotAbove(a: nat, b: nat, n: nat)
    requires n > 0 && a * n < (b + 1) * n
    ensures a <= b
  {
    if a > b { MulLe(b + 1, n, a, n); }
  }

  /** rdui_round_clip_alpha: the opacity of position (lx, ly) of a ww-by-hh rounded rectangle. */
  function ClipAlpha(lx: int, ly: int, ww: int, hh: int, r0: int, alpha: UInt32): UInt32 {
    var r := Radius(ww, hh, r0);
    if alpha == 0 then 0
    else if r0 < 2 || r < 2 then alpha
    else if r <= lx < ww - r || r <= ly < hh - r then alpha
    else
      var cx := if lx < r then r - 1 else ww - r;
      var cy := if ly < r then r - 1 else hh - r;
      var dx, dy := lx - cx, ly - cy;
      ArcAlpha(dx * dx + dy * dy, r, alpha)
  }

  /** Each corner is an arc around the innermost pixel of its own square; elsewhere the shape is flat. */
  lemma CornersAreArcs(lx: int, ly: int, ww: int, hh: int, r0: int, alpha: UInt32)
    requires InBox(lx, ly, ww, hh) && r0 >= 2 && Radius(ww, hh, r0) >= 2 && alpha != 0
    ensures var r := Radius(ww, hh, r0);
            var left, right, top, bottom := r - 1, ww - r, r - 1, hh - r;
            ClipAlpha(lx, ly, ww, hh, r0, alpha) ==
            if lx <= left && ly <= top then ArcAlpha(Distance2(lx, ly, left, top), r, alpha)
            else if lx >= right && ly <= top then ArcAlpha(Distance2(lx, ly, right, top), r, alpha)
            else if lx <= left && ly >= bottom then ArcAlpha(Distance2(lx, ly, left, bottom), r, alpha)
            else if lx >= right && ly >= bottom then ArcAlpha(Distance2(lx, ly, right, bottom), r, alpha)
            else alpha
  {
    hide ArcAlpha;
  }

  function Distance2(x: int, y: int, cx: int, cy: int): int {
    (x - cx) * (x - cx) + (y - cy) * (y - cy)
  }

  /** Distance to the nearer of the two ends of `0..n`. */
  function Fold(l: int, n: int): int {
    if l <= n - 1 - l then l else n - 1 - l
  }

  predicate InCorner(lx: int, ly: int, ww: int, hh: int, r: int) {
    InBox(lx, ly, ww, hh) && Fold(lx, ww) < r && Fold(ly, hh) < r
  }

  function CornerAlpha(fx: int, fy: int, r: int, alpha: UInt32): UInt32
    requires r >= 2
  {
    var dx, dy := r - 1 - fx, r - 1 - fy;
    ArcAlpha(dx * dx + dy * dy, r, alpha)
  }

  /** Away from the corners the clip function is flat; in them it depends on the folded position. */
  lemma ClipAlphaFolds(lx: int, ly: int, ww: int, hh: int, r0: int, alpha: UInt32)
    requires InBox(lx, ly, ww, hh) && alpha != 0
    ensures var r := Radius(ww, hh, r0);
            ClipAlpha(lx, ly, ww, hh, r0, alpha) ==
            if r0 >= 2 && r >= 2 && InCorner(lx, ly, ww, hh, r) then CornerAlpha(Fold(lx, ww), Fold(ly, hh), r, alpha)
            else alpha
  {
    hide ArcAlpha;
    var r := Radius(ww, hh, r0);
    if r0 >= 2 && r >= 2 && InCorner(lx, ly, ww, hh, r) {
      var cx := if lx < r then r - 1 else ww - r;
      var cy := if ly < r then r - 1 else hh - r;
      var dx, dy := lx - cx, ly - cy;
      var ex, ey := r - 1 - Fold(lx, ww), r - 1 - Fold(ly, hh);
      assert (dx == ex || dx == -ex) && (dy == ey || dy == -ey);
      SquareOfNegation(ex);
      SquareOfNegation(ey);
    }
  }

  /** The same, with a transparent colour painting nothing. */
  lemma ShownAlpha(dst: Pixel, lx: int, ly: int, ww: int, hh: int, r0: int, color: Pixel, alpha: UInt32)
    requires InBox(lx, ly, ww, hh)
    ensures var r := Radius(ww, hh, r0);
            Blend(dst, color, ClipAlpha(lx, ly, ww, hh, r0, alpha)) ==
            Blend(dst, color, if r0 >= 2 && r >= 2 && InCorner(lx, ly, ww, hh, r)
                              then CornerAlpha(Fold(lx, ww), Fold(ly, hh), r, alpha) else alpha)
  {
    if alpha != 0 { ClipAlphaFolds(lx, ly, ww, hh, r0, alpha); }
    else if Radius(ww, hh, r0) >= 2 { TransparentCorner(Fold(lx, ww), Fold(ly, hh), Radius(ww, hh, r0)); }
  }

  lemma CornerBranches(ix: int, iy: int, r: int, alpha: UInt32, d2: int, outer: int, inner: int)
    requires r >= 2 && outer == r * r && inner == (r - 1) * (r - 1)
    requires d2 == (r - 1 - ix) * (r - 1 - ix) + (r - 1 - iy) * (r - 1 - iy)
    ensures inner < outer
    ensures CornerAlpha(ix, iy, r, alpha) ==
            if d2 <= inner then alpha else if d2 <= outer then EdgeAlpha(d2, outer, inner, alpha) else 0
  {
    SquareGap(r);
  }

  lemma TransparentCorner(fx: int, fy: int, r: int)
    requires r >= 2
    ensures CornerAlpha(fx, fy, r, 0) == 0
  {
    hide EdgeAlpha;
    var dx, dy := r - 1 - fx, r - 1 - fy;
    var d2 := dx * dx + dy * dy;
    SquareGap(r);
    TransparentEdge(d2, r * r, (r - 1) * (r - 1));
  }

  lemma TransparentEdge(d2: int, outer: int, inner: int)
    requires inner <= outer
    ensures EdgeAlpha(d2, outer, inner, 0) == 0
  {
    DivUnique(0, outer - inner + 1, 0, 0);
  }

  // ----- The rasterisers ---------------------------------------------------------------------------

  datatype Tile = Tile(x: int, y: int, w: int, h: int)

  class Window {
    const width: UInt32
    const height: UInt32
    const fb: array2<Pixel>  // one row per stride

    predicate Shaped() {
      width < 0x8000_0000 && height < 0x8000_0000 && height <= fb.Length0 && width <= fb.Length1
    }

    constructor (width: UInt32, height: UInt32, fb: array2<Pixel>)
      requires width < 0x8000_0000 && height < 0x8000_0000 && height <= fb.Length0 && width <= fb.Length1
      ensures Shaped() && this.width == width && this.height == height && this.fb == fb
    {
      this.width, this.height, this.fb := width, height, fb;
    }

    predicate OnScreen(px: int, py: int) {
      0 <= px < width && 0 <= py < height
    }

    method PixelAlpha(x: int, y: int, color: Pixel, alpha: UInt32)
      requires Shaped()
      modifies fb
      ensures forall py, px :: 0 <= py < fb.Length0 && 0 <= px < fb.Length1 ==>
                fb[py, px] == if px == x && py == y && OnScreen(px, py) then Blend(old(fb[py, px]), color, alpha)
                              else old(fb[py, px])
    {
      if alpha == 0 { return; }
      if x < 0 || y < 0 || x >= width || y >= height { return; }
      fb[y, x] := Blend(fb[y, x], color, alpha);
    }

    /** A pixel the fill touches, by the C code's clipping. */
    predicate Filled(x: int, y: int, ww: int, hh: int, px: int, py: int) {
      ww > 0 && hh > 0 && Clip.Covers(Clip.Span(x, ww, width), px) && Clip.Covers(Clip.Span(y, hh, height), py)
    }

    /** The rectangle is empty, or its right and bottom edges are not left of or above the screen. */
    static predicate EdgesReach(x: int, y: int, ww: int, hh: int) {
      ww <= 0 || hh <= 0 || (x + ww >= 0 && y + hh >= 0)
    }

    /**
      The rectangle is empty, or its right and bottom edges are not left of or above the screen,
      or nothing of the screen lies in its other extent.
     */
    predicate FillsRight(x: int, y: int, ww: int, hh: int) {
      || EdgesReach(x, y, ww, hh) || width == 0 || height == 0
      || (y + hh >= 0 && (y >= height || y + hh == 0))
      || (x + ww >= 0 && (x >= width || x + ww == 0))
    }

    /** The fill touches exactly the visible part of its rectangle, or else too much. */
    lemma FilledExactly(x: Int32, y: Int32, ww: Int32, hh: Int32)
      requires Shaped() && x + ww < 0x8000_0000 && y + hh < 0x8000_0000
      ensures forall px, py :: OnScreen(px, py) && InBox(px - x, py - y, ww, hh) ==> Filled(x, y, ww, hh, px, py)
      ensures forall px, py :: Filled(x, y, ww, hh, px, py) ==> OnScreen(px, py)
      ensures (forall px, py :: Filled(x, y, ww, hh, px, py) ==> OnScreen(px, py) && InBox(px - x, py - y, ww, hh))
              <==> FillsRight(x, y, ww, hh)
    {
      if ww > 0 && hh > 0 && width > 0 && height > 0 && !EdgesReach(x, y, ww, hh) {
        var px := if x + ww < 0 then 0 else if x < 0 then 0 else x;
        var py := if y + hh < 0 then 0 else if y < 0 then 0 else y;
        assert Filled(x, y, ww, hh, px, py) <==>
               (x + ww < 0 || (x < width && x + ww > 0)) && (y + hh < 0 || (y < height && y + hh > 0));
      }
    }

    method FillAlpha(x: Int32, y: Int32, ww: Int32, hh: Int32, color: Pixel, alpha: UInt32)
      requires Shaped() && x + ww < 0x8000_0000 && y + hh < 0x8000_0000
      modifies fb
      ensures forall py, px :: 0 <= py < fb.Length0 && 0 <= px < fb.Length1 ==>
                fb[py, px] == if Filled(x, y, ww, hh, px, py) then Blend(old(fb[py, px]), color, alpha)
                              else old(fb[py, px])
    {
      if ww <= 0 || hh <= 0 || alpha == 0 { return; }
      var (left, cols) := Clip.Span(x, ww, width);
      var (top, rows) := Clip.Span(y, hh, height);
      if cols <= 0 || rows <= 0 { return; }
      for row := 0 to rows
        invariant forall py, px :: 0 <= py < fb.Length0 && 0 <= px < fb.Length1 ==>
                    fb[py, px] == if top <= py < top + row && left <= px < left + cols
                                  then Blend(old(fb[py, px]), color, alpha) else old(fb[py, px])
      {
        for col := 0 to cols
          invariant forall py, px :: 0 <= py < fb.Length0 && 0 <= px < fb.Length1 ==>
                      fb[py, px] == if left <= px < left + cols
                                    && (top <= py < top + row || (py == top + row && px < left + col))
                                    then Blend(old(fb[py, px]), color, alpha) else old(fb[py, px])
        {
          fb[top + row, left + col] := Blend(fb[top + row, left + col], color, alpha);
        }
      }
    }

    /** The four mirror images of a corner position. */
    method QuadAlpha(x: int, y: int, ww: int, hh: int, ix: int, iy: int, color: Pixel, alpha: UInt32)
      requires Shaped() && 0 <= 2 * ix < ww - 1 && 0 <= 2 * iy < hh - 1
      modifies fb
      ensures forall py, px :: 0 <= py < fb.Length0 && 0 <= px < fb.Length1 ==>
                fb[py, px] == if OnScreen(px, py) && InBox(px - x, py - y, ww, hh)
                                   && Fold(px - x, ww) == ix && Fold(py - y, hh) == iy
                              then Blend(old(fb[py, px]), color, alpha) else old(fb[py, px])
    {
      hide Blend;
      PixelAlpha(x + ix, y + iy, color, alpha);
      PixelAlpha(x + ww - 1 - ix, y + iy, color, alpha);
      PixelAlpha(x + ix, y + hh - 1 - iy, color, alpha);
      PixelAlpha(x + ww - 1 - ix, y + hh - 1 - iy, color, alpha);
    }

    /** The arc loops. */
    method RoundCorners(x: int, y: int, ww: int, hh: int, r: int, color: Pixel, alpha: UInt32)
      requires Shaped() && 2 <= r && r * 2 <= ww && r * 2 <= hh
      modifies fb
      ensures forall py, px :: 0 <= py < fb.Length0 && 0 <= px < fb.Length1 ==>
                fb[py, px] == if OnScreen(px, py) && InCorner(px - x, py - y, ww, hh, r)
                              then Blend(old(fb[py, px]), color,
                                         CornerAlpha(Fold(px - x, ww), Fold(py - y, hh), r, alpha))
                              else old(fb[py, px])
    {
      var outer, inner := r * r, (r - 1) * (r - 1);
      SquareGap(r);
      for iy := 0 to r
        invariant forall py, px :: 0 <= py < fb.Length0 && 0 <= px < fb.Length1 ==>
                    fb[py, px] == if OnScreen(px, py) && InCorner(px - x, py - y, ww, hh, r) && Fold(py - y, hh) < iy
                                  then Blend(old(fb[py, px]), color,
                                             CornerAlpha(Fold(px - x, ww), Fold(py - y, hh), r, alpha))
                                  else old(fb[py, px])
      {
        for ix := 0 to r
          invariant forall py, px :: 0 <= py < fb.Length0 && 0 <= px < fb.Length1 ==>
                      fb[py, px] == if OnScreen(px, py) && InCorner(px - x, py - y, ww, hh, r)
                                       && (Fold(py - y, hh) < iy || (Fold(py - y, hh) == iy && Fold(px - x, ww) < ix))
                                    then Blend(old(fb[py, px]), color,
                                               CornerAlpha(Fold(px - x, ww), Fold(py - y, hh), r, alpha))
                                    else old(fb[py, px])
        {
          hide Blend, CornerAlpha;
          var dx, dy := r - 1 - ix, r - 1 - iy;
          var d2 := dx * dx + dy * dy;
          CornerBranches(ix, iy, r, alpha, d2, outer, inner);
          if d2 <= inner {
            QuadAlpha(x, y, ww, hh, ix, iy, color, alpha);
          } else if d2 <= outer {
            var edgeAlpha := EdgeAlpha(d2, outer, inner, alpha);
            if edgeAlpha != 0 { QuadAlpha(x, y, ww, hh, ix, iy, color, edgeAlpha); }
          }
        }
      }
    }

    // ----- The tiles --------------------------------------------------------------------------------

    /** The rectangles of the tiled rasteriser: the box, or a cross of three. */
    static function Tiles(x: int, y: int, ww: int, hh: int, r0: int): (tiles: seq<Tile>)
      ensures |tiles| == 3
    {
      var r := Radius(ww, hh, r0);
      if r0 < 2 || r < 2 then [Tile(x, y, ww, hh), Tile(0, 0, 0, 0), Tile(0, 0, 0, 0)]
      else [Tile(x + r, y, ww - r * 2, hh), Tile(x, y + r, r, hh - r * 2), Tile(x + ww - r, y + r, r, hh - r * 2)]
    }

    predicate Fills(t: Tile, px: int, py: int) {
      Filled(t.x, t.y, t.w, t.h, px, py)
    }

    predicate TilesRight(x: int, y: int, ww: int, hh: int, r0: int) {
      var tiles := Tiles(x, y, ww, hh, r0);
      forall i :: 0 <= i < 3 ==> FillsRight(tiles[i].x, tiles[i].y, tiles[i].w, tiles[i].h)
    }

    /** What the three fills make of a pixel. */
    function Crossed(dst: Pixel, tiles: seq<Tile>, px: int, py: int, color: Pixel, alpha: UInt32): Pixel
      requires |tiles| == 3
    {
      var d0 := if Fills(tiles[0], px, py) then Blend(dst, color, alpha) else dst;
      var d1 := if Fills(tiles[1], px, py) then Blend(d0, color, alpha) else d0;
      if Fills(tiles[2], px, py) then Blend(d1, color, alpha) else d1
    }

    /** What the tiled rasteriser makes of a pixel, in all cases. */
    function Tiled(dst: Pixel, x: int, y: int, ww: int, hh: int, r0: int,
                   px: int, py: int, color: Pixel, alpha: UInt32): Pixel
    {
      var r := Radius(ww, hh, r0);
      var crossed := Crossed(dst, Tiles(x, y, ww, hh, r0), px, py, color, alpha);
      if r0 >= 2 && r >= 2 && OnScreen(px, py) && InCorner(px - x, py - y, ww, hh, r)
      then Blend(crossed, color, CornerAlpha(Fold(px - x, ww), Fold(py - y, hh), r, alpha))
      else crossed
    }

    /** What the clip function says of a pixel. */
    function Clipped(dst: Pixel, x: int, y: int, ww: int, hh: int, r0: int,
                     px: int, py: int, color: Pixel, alpha: UInt32): Pixel
    {
      if OnScreen(px, py) && InBox(px - x, py - y, ww, hh)
      then Blend(dst, color, ClipAlpha(px - x, py - y, ww, hh, r0, alpha)) else dst
    }

    static predicate InTile(t: Tile, px: int, py: int) {
      InBox(px - t.x, py - t.y, t.w, t.h)
    }

    /** In the box and not left to the corner arcs. */
    static predicate InCross(x: int, y: int, ww: int, hh: int, r0: int, px: int, py: int) {
      var r := Radius(ww, hh, r0);
      InBox(px - x, py - y, ww, hh) && !(r0 >= 2 && r >= 2 && InCorner(px - x, py - y, ww, hh, r))
    }

    static lemma TilesPartition(x: int, y: int, ww: int, hh: int, r0: int, px: int, py: int)
      ensures var t := Tiles(x, y, ww, hh, r0);
              && (InCross(x, y, ww, hh, r0, px, py) <==>
                  InTile(t[0], px, py) || InTile(t[1], px, py) || InTile(t[2], px, py))
              && !(InTile(t[0], px, py) && InTile(t[1], px, py))
              && !(InTile(t[0], px, py) && InTile(t[2], px, py))
              && !(InTile(t[1], px, py) && InTile(t[2], px, py))
    {}

    lemma TileFilled(x: Int32, y: Int32, ww: Int32, hh: Int32, r0: Int32, i: nat)
      requires Shaped() && x + ww < 0x8000_0000 && y + hh < 0x8000_0000 && i < 3
      ensures var t := Tiles(x, y, ww, hh, r0)[i];
              && (forall px, py :: OnScreen(px, py) && InTile(t, px, py) ==> Fills(t, px, py))
              && (forall px, py :: Fills(t, px, py) ==> OnScreen(px, py))
              && ((forall px, py :: Fills(t, px, py) ==> InTile(t, px, py)) <==> FillsRight(t.x, t.y, t.w, t.h))
    {
      hide Filled, FillsRight;
      var t := Tiles(x, y, ww, hh, r0)[i];
      FilledExactly(t.x, t.y, t.w, t.h);
    }

    lemma NoTile()
      ensures forall px, py :: !Filled(0, 0, 0, 0, px, py)
    {}

    lemma NothingTiled(x: int, y: int, ww: int, hh: int, r0: int, color: Pixel, alpha: UInt32)
      requires ww <= 0 || hh <= 0
      ensures forall dst, px, py :: Tiled(dst, x, y, ww, hh, r0, px, py, color, alpha) == dst
    {
      hide Blend, CornerAlpha;
    }

    /** With tiles that fill right, the tiles paint what the clip function says. */
    lemma TiledIsClipped(dst: Pixel, x: Int32, y: Int32, ww: Int32, hh: Int32, r0: Int32, px: int, py: int,
                         color: Pixel, alpha: UInt32)
      requires Shaped() && x + ww < 0x8000_0000 && y + hh < 0x8000_0000 && TilesRight(x, y, ww, hh, r0)
      ensures Tiled(dst, x, y, ww, hh, r0, px, py, color, alpha) == Clipped(dst, x, y, ww, hh, r0, px, py, color, alpha)
    {
      hide Filled, FillsRight, Blend, CornerAlpha, ClipAlpha, Radius, Fills, InTile, Tiles;
      var tiles := Tiles(x, y, ww, hh, r0);
      TileFilled(x, y, ww, hh, r0, 0);
      TileFilled(x, y, ww, hh, r0, 1);
      TileFilled(x, y, ww, hh, r0, 2);
      TilesPartition(x, y, ww, hh, r0, px, py);
      assert forall i :: 0 <= i < 3 ==> (Fills(tiles[i], px, py) <==> OnScreen(px, py) && InTile(tiles[i], px, py));
      if InBox(px - x, py - y, ww, hh) { ShownAlpha(dst, px - x, py - y, ww, hh, r0, color, alpha); }
    }

    static lemma BlendChannelIs(d: Byte, s: Byte, alpha: Byte)
      ensures BlendChannel(d, s, alpha) == (s * alpha + d * (255 - alpha) + 127) / 255
    {}

    static lemma FaintChannels(n: Byte)
      requires n <= 3
      ensures BlendChannel(0, 0, 1) == 0 && BlendChannel(n, 255, 1) == n + 1
    {
      hide BlendChannel;
      BlendChannelIs(0, 0, 1);
      BlendChannelIs(n, 255, 1);
      DivUnique(n * 255 + (382 - n), 255, n + 1, 127 - n);
      DivUnique(127, 255, 0, 127);
    }

    /** Faint blue adds one to a nearly black pixel with every coat. */
    static lemma Coat(n: Pixel, alpha: UInt32)
      requires n <= 3 && alpha <= 1
      ensures Blend(n, 0xFF, alpha) == n + alpha
    {
      hide BlendChannel, Pack;
      assert Get(0xFF, Red) == Get(0xFF, Green) == 0 && Get(0xFF, Blue) == 255;
      assert Get(n, Red) == Get(n, Green) == 0 && Get(n, Blue) == n;
      FaintChannels(n);
      PackIs(0, 0, n + 1);
    }

    static lemma FaintCorner(fx: int, fy: int, r: int)
      requires 2 <= r <= 0x4000_0000
      ensures CornerAlpha(fx, fy, r, 1) <= 1
    {
      hide EdgeAlpha;
      var dx, dy := r - 1 - fx, r - 1 - fy;
      SquareGap(r);
      var d2, outer, inner := dx * dx + dy * dy, r * r, (r - 1) * (r - 1);
      if inner < d2 <= outer { FaintEdge(d2, outer, inner); }
    }

    static lemma FaintEdge(d2: int, outer: int, inner: int)
      requires inner < d2 <= outer && outer - inner < 0x8000_0000
      ensures EdgeAlpha(d2, outer, inner, 1) == 0
    {
      var v := outer - d2 + 1;
      assert Unsigned(v) == v && (1 * v) % TWO_32 == v;
      DivUnique(v, outer - inner + 1, 0, v);
    }

    function Fill(t: Tile, px: int, py: int): nat {
      if Fills(t, px, py) then 1 else 0
    }

    /** The number of coats the tiles give a pixel. */
    lemma CoatsTiled(x: Int32, y: Int32, ww: Int32, hh: Int32, r0: Int32, px: int, py: int)
      ensures var tiles := Tiles(x, y, ww, hh, r0);
              var fills := Fill(tiles[0], px, py) + Fill(tiles[1], px, py) + Fill(tiles[2], px, py);
              var once := if OnScreen(px, py) && InCross(x, y, ww, hh, r0, px, py) then 1 else 0;
              Tiled(0, x, y, ww, hh, r0, px, py, 0xFF, 1) - fills ==
              Clipped(0, x, y, ww, hh, r0, px, py, 0xFF, 1) - once
    {
      hide Filled, Blend, CornerAlpha, ClipAlpha, Radius, Fills, Tiles;
      var tiles, r := Tiles(x, y, ww, hh, r0), Radius(ww, hh, r0);
      forall n: Pixel | n <= 3 ensures Blend(n, 0xFF, 1) == n + 1 { Coat(n, 1); }
      assert Crossed(0, tiles, px, py, 0xFF, 1) ==
             Fill(tiles[0], px, py) + Fill(tiles[1], px, py) + Fill(tiles[2], px, py);
      if InBox(px - x, py - y, ww, hh) {
        ShownAlpha(0, px - x, py - y, ww, hh, r0, 0xFF, 1);
        if r0 >= 2 && r >= 2 {
          RadiusFits(ww, hh, r0);
          var a := CornerAlpha(Fold(px - x, ww), Fold(py - y, hh), r, 1);
          FaintCorner(Fold(px - x, ww), Fold(py - y, hh), r);
          forall n: Pixel | n <= 3 ensures Blend(n, 0xFF, a) == n + a { Coat(n, a); }
        }
      }
    }

    static lemma RadiusFits(ww: Int32, hh: Int32, r0: int)
      ensures Radius(ww, hh, r0) >= 2 && r0 >= 2 ==> Radius(ww, hh, r0) <= 0x4000_0000
    {}

    /**
      Tiles and clip function paint alike on every surface, in every colour and opacity, if and
      only if the tiles fill right: none of them ends left of the screen or above it and yet shows.
     */
    lemma TiledExactly(x: Int32, y: Int32, ww: Int32, hh: Int32, r0: Int32)
      requires Shaped() && x + ww < 0x8000_0000 && y + hh < 0x8000_0000
      ensures (forall dst, color, alpha, px, py ::
                 Tiled(dst, x, y, ww, hh, r0, px, py, color, alpha) ==
                 Clipped(dst, x, y, ww, hh, r0, px, py, color, alpha))
              <==> TilesRight(x, y, ww, hh, r0)
    {
      hide Filled, FillsRight, Fills, InTile, Tiles, Tiled, Clipped, InCross;
      if TilesRight(x, y, ww, hh, r0) {
        forall dst, color, alpha, px, py
          ensures Tiled(dst, x, y, ww, hh, r0, px, py, color, alpha) ==
                  Clipped(dst, x, y, ww, hh, r0, px, py, color, alpha)
        {
          TiledIsClipped(dst, x, y, ww, hh, r0, px, py, color, alpha);
        }
      } else {
        var tiles := Tiles(x, y, ww, hh, r0);
        var i :| 0 <= i < 3 && !FillsRight(tiles[i].x, tiles[i].y, tiles[i].w, tiles[i].h);
        TileFilled(x, y, ww, hh, r0, 0);
        TileFilled(x, y, ww, hh, r0, 1);
        TileFilled(x, y, ww, hh, r0, 2);
        var px, py :| Fills(tiles[i], px, py) && !InTile(tiles[i], px, py);
        TilesPartition(x, y, ww, hh, r0, px, py);
        CoatsTiled(x, y, ww, hh, r0, px, py);
      }
    }

    method RoundAlpha(x: Int32, y: Int32, ww: Int32, hh: Int32, radius: Int32, color: Pixel, alpha: UInt32)
      requires Shaped() && x + ww < 0x8000_0000 && y + hh < 0x8000_0000
      modifies fb
      ensures forall py, px :: 0 <= py < fb.Length0 && 0 <= px < fb.Length1 ==>
                fb[py, px] == Tiled(old(fb[py, px]), x, y, ww, hh, radius, px, py, color, alpha)
    {
      hide Blend, CornerAlpha, Filled;
      if ww <= 0 || hh <= 0 {
        NothingTiled(x, y, ww, hh, radius, color, alpha);
        return;
      }
      var r := Radius(ww, hh, radius);
      if radius < 2 || r < 2 {
        NoTile();
        FillAlpha(x, y, ww, hh, color, alpha);
      } else {
        FillAlpha(x + r, y, ww - r * 2, hh, color, alpha);
        FillAlpha(x, y + r, r, hh - r * 2, color, alpha);
        FillAlpha(x + ww - r, y + r, r, hh - r * 2, color, alpha);
        RoundCorners(x, y, ww, hh, r, color, alpha);
      }
    }

    /** The inner loop of rdui_round_gradient_v. */
    method GradientRow(x: int, y: int, ww: int, hh: int, radius: int, row: int, c: Pixel, alpha: UInt32)
      requires Shaped()
      modifies fb
      ensures forall py, px :: 0 <= py < fb.Length0 && 0 <= px < fb.Length1 ==>
                fb[py, px] == if OnScreen(px, py) && py - y == row && 0 <= px - x < ww
                              then Blend(old(fb[py, px]), c, ClipAlpha(px - x, row, ww, hh, radius, alpha))
                              else old(fb[py, px])
    {
      hide Blend, ClipAlpha;
      if ww <= 0 { return; }
      for col := 0 to ww
        invariant forall py, px :: 0 <= py < fb.Length0 && 0 <= px < fb.Length1 ==>
                    fb[py, px] == if OnScreen(px, py) && py - y == row && 0 <= px - x < col
                                  then Blend(old(fb[py, px]), c, ClipAlpha(px - x, row, ww, hh, radius, alpha))
                                  else old(fb[py, px])
      {
        var a := ClipAlpha(col, row, ww, hh, radius, alpha);
        if a != 0 { PixelAlpha(x + col, y + row, c, a); }
        else { NoCoat(c); }
      }
    }

    static lemma NoCoat(c: Pixel)
      ensures forall dst :: Blend(dst, c, 0) == dst
    {}

    method RoundGradientV(x: Int32, y: Int32, ww: Int32, hh: Int32, radius: Int32,
                          top: Pixel, bottom: Pixel, alpha: UInt32)
      requires Shaped()
      modifies fb
      ensures forall py, px :: 0 <= py < fb.Length0 && 0 <= px < fb.Length1 ==>
                fb[py, px] == if OnScreen(px, py) && InBox(px - x, py - y, ww, hh)
                              then Blend(old(fb[py, px]), RowColor(py - y, hh, top, bottom),
                                         ClipAlpha(px - x, py - y, ww, hh, radius, alpha))
                              else old(fb[py, px])
    {
      if ww <= 0 || hh <= 0 || alpha == 0 { return; }
      hide Blend, RowColor, ClipAlpha;
      for row := 0 to hh
        invariant forall py, px :: 0 <= py < fb.Length0 && 0 <= px < fb.Length1 ==>
                    fb[py, px] == if OnScreen(px, py) && InBox(px - x, py - y, ww, hh) && py - y < row
                                  then Blend(old(fb[py, px]), RowColor(py - y, hh, top, bottom),
                                             ClipAlpha(px - x, py - y, ww, hh, radius, alpha))
                                  else old(fb[py, px])
      {
        GradientRow(x, y, ww, hh, radius, row, RowColor(row, hh, top, bottom), alpha);
      }
    }
  }

  function RowShare(row: int, hh: int): (t: Byte)
    requires 0 <= row < hh
  {
    var den := if hh > 1 then hh - 1 else 1;
    var t := row * 255 / den;
    assert t <= 255 by { DivBound(row, den); }
    t
  }

  lemma DivBound(row: nat, den: nat)
    requires den > 0 && row <= den
    ensures 0 <= row * 255 / den <= 255
  {
    if row * 255 / den > 255 { MulLe(256, den, row * 255 / den, den); }
  }

  function RowColor(row: int, hh: int, top: Pixel, bottom: Pixel): Pixel
    requires 0 <= row < hh
  {
    Mix(top, bottom, RowShare(row, hh))
  }


  // ----- The colours of a gradient -----------------------------------------------------------------

  /** Channel value `v` is within two levels below and one above the straight line from `a` to `b`, at `k` of `n`. */
  predicate NearLine(v: int, a: int, b: int, k: int, n: int) {
    -2 * n < v * n - (a * n + (b - a) * k) < n
  }

  lemma MixIs(a: Byte, b: Byte, t: Byte)
    ensures 255 * MixChannel(a, b, t) <= a * (255 - t) + b * t < 255 * MixChannel(a, b, t) + 255
  {}

  lemma MixEnds(a: Byte, b: Byte)
    ensures MixChannel(a, b, 0) == a && MixChannel(a, b, 255) == b
  {
    MixIs(a, b, 0);
    MixIs(a, b, 255);
  }

  lemma MixBetween(a: Byte, b: Byte, t: Byte)
    ensures a <= MixChannel(a, b, t) <= b || b <= MixChannel(a, b, t) <= a
  {
    WeightedBetween(b, a, t, 255);
    MixIs(a, b, t);
  }

  lemma MixMonotone(a: Byte, b: Byte, t: Byte, u: Byte)
    requires t <= u
    ensures a <= b ==> MixChannel(a, b, t) <= MixChannel(a, b, u)
    ensures a >= b ==> MixChannel(a, b, t) >= MixChannel(a, b, u)
  {
    MixIs(a, b, t);
    MixIs(a, b, u);
    hide MixChannel;
    Weighted(a, b, t);
    Weighted(a, b, u);
    if a <= b { MulLe(b - a, t, b - a, u); }
    else { MulLe(a - b, t, a - b, u); assert (b - a) * t == -((a - b) * t) && (b - a) * u == -((a - b) * u); }
  }

  lemma Weighted(a: int, b: int, t: int)
    ensures a * (255 - t) + b * t == 255 * a + (b - a) * t
  {}

  lemma ShareIs(row: int, hh: int)
    requires 0 <= row < hh
    ensures var n := if hh > 1 then hh - 1 else 1;
            RowShare(row, hh) * n <= row * 255 < RowShare(row, hh) * n + n
  {
    var n := if hh > 1 then hh - 1 else 1;
    assert row * 255 == n * (row * 255 / n) + row * 255 % n;
    assert n * (row * 255 / n) == row * 255 / n * n;
  }

  lemma ShareMonotone(row: int, later: int, hh: int)
    requires 0 <= row <= later < hh
    ensures RowShare(row, hh) <= RowShare(later, hh)
  {
    var n := if hh > 1 then hh - 1 else 1;
    ShareIs(row, hh);
    ShareIs(later, hh);
    var t, u := RowShare(row, hh), RowShare(later, hh);
    if t > u {
      MulLe(u + 1, n, t, n);
      MulSucc(u, n);
    }
  }

  lemma ShareEnds(hh: int)
    requires hh > 0
    ensures RowShare(0, hh) == 0 && (hh > 1 ==> RowShare(hh - 1, hh) == 255)
  {
    if hh > 1 { DivUnique((hh - 1) * 255, hh - 1, 255, 0); }
    DivUnique(0, if hh > 1 then hh - 1 else 1, 0, 0);
  }

  /** Rounding the share down and the mix down costs less than two levels. */
  lemma MixNearLine(a: Byte, b: Byte, t: Byte, k: nat, n: nat)
    requires 0 < n && t * n <= k * 255 < t * n + n
    ensures NearLine(MixChannel(a, b, t), a, b, k, n)
  {
    var v: int := MixChannel(a, b, t);
    MixIs(a, b, t);
    hide MixChannel;
    Weighted(a, b, t);
    LineError(v, a, b - a, t, k, n, 255 * a + (b - a) * t - 255 * v, k * 255 - t * n);
  }

  lemma LineError(v: int, a: int, d: int, t: int, k: nat, n: nat, rest: nat, left: nat)
    requires 255 * v + rest == 255 * a + d * t && rest < 255
    requires t * n + left == k * 255 && left < n && -255 <= d <= 255
    ensures -2 * n < v * n - (a * n + d * k) < n
  {
    Spread(v, rest, n);
    SpreadSlope(a, d, t, n);
    SpreadStep(d, t * n, left, k);
    MulLe(rest, n, 254, n);
    MulLe(0, 0, rest, n);
    SlopeError(d, left, n);
  }

  lemma Spread(v: int, rest: int, n: int)
    ensures (255 * v + rest) * n == 255 * (v * n) + rest * n
  {}

  lemma SpreadSlope(a: int, d: int, t: int, n: int)
    ensures (255 * a + d * t) * n == 255 * (a * n) + d * (t * n)
  {
    assert (d * t) * n == d * (t * n);
  }

  lemma SpreadStep(d: int, p: int, left: int, k: int)
    requires p + left == k * 255
    ensures d * p + d * left == 255 * (d * k)
  {
    assert d * (p + left) == d * p + d * left;
    assert d * (k * 255) == 255 * (d * k);
  }

  lemma SlopeError(d: int, left: nat, n: nat)
    requires -255 <= d <= 255 && left < n
    ensures -255 * n < d * left < 255 * n
  {
    if d >= 0 { MulLe(d, left, 255, left); MulLe(0, 0, d, left); }
    else { MulLe(-d, left, 255, left); MulLe(0, 0, -d, left); assert d * left == -((-d) * left); }
  }

  /**
    The colours of a vertical gradient: the first row has the top colour and the last the bottom
    colour, and every channel goes straight from one to the other, but for rounding.
   */
  lemma GradientRows(row: int, later: int, hh: int, top: Pixel, bottom: Pixel, c: Channel)
    requires 0 <= row <= later < hh
    ensures RowColor(0, hh, top, bottom) == Opaque(top)
    ensures hh > 1 ==> RowColor(hh - 1, hh, top, bottom) == Opaque(bottom)
    ensures var a, b, v := Get(top, c), Get(bottom, c), Get(RowColor(row, hh, top, bottom), c);
            && (a <= v <= b || b <= v <= a)
            && (hh > 1 ==> NearLine(v, a, b, row, hh - 1))
            && (a <= b ==> v <= Get(RowColor(later, hh, top, bottom), c))
            && (a >= b ==> v >= Get(RowColor(later, hh, top, bottom), c))
  {
    hide Get, RowShare, MixChannel, NearLine, Pack;
    ShareEnds(hh);
    EndColours(top, bottom);
    var a, b := Get(top, c), Get(bottom, c);
    var t, u := RowShare(row, hh), RowShare(later, hh);
    MixByChannel(top, bottom, t, c);
    MixByChannel(top, bottom, u, c);
    MixBetween(a, b, t);
    ShareMonotone(row, later, hh);
    MixMonotone(a, b, t, u);
    if hh > 1 {
      ShareIs(row, hh);
      MixNearLine(a, b, t, row, hh - 1);
    }
  }

  lemma EndColours(top: Pixel, bottom: Pixel)
    ensures Mix(top, bottom, 0) == Opaque(top) && Mix(top, bottom, 255) == Opaque(bottom)
  {
    hide Get, MixChannel, Pack;
    MixEnds(Get(top, Red), Get(bottom, Red));
    MixEnds(Get(top, Green), Get(bottom, Green));
    MixEnds(Get(top, Blue), Get(bottom, Blue));
    OpaqueIsPacked(top);
    OpaqueIsPacked(bottom);
  }

  /**
    The two rasterisers leave identical windows when the gradient's ends are one colour and the
    tiles fill right.
   */
  method SamePicture(tiled: Window, perPixel: Window, x: Int32, y: Int32, ww: Int32, hh: Int32,
                     radius: Int32, color: Pixel, alpha: UInt32)
    requires tiled.Shaped() && perPixel.Shaped() && tiled.fb != perPixel.fb
    requires tiled.width == perPixel.width && tiled.height == perPixel.height
    requires tiled.fb.Length0 == perPixel.fb.Length0 && tiled.fb.Length1 == perPixel.fb.Length1
    requires forall py, px :: 0 <= py < tiled.fb.Length0 && 0 <= px < tiled.fb.Length1 ==>
               tiled.fb[py, px] == perPixel.fb[py, px]
    requires x + ww < 0x8000_0000 && y + hh < 0x8000_0000
    modifies tiled.fb, perPixel.fb
    ensures forall py, px :: 0 <= py < tiled.fb.Length0 && 0 <= px < tiled.fb.Length1 ==>
              && tiled.fb[py, px] == tiled.Tiled(old(tiled.fb[py, px]), x, y, ww, hh, radius, px, py, color, alpha)
              && perPixel.fb[py, px] == tiled.Clipped(old(tiled.fb[py, px]), x, y, ww, hh, radius, px, py, color, alpha)
              && (tiled.TilesRight(x, y, ww, hh, radius) ==> tiled.fb[py, px] == perPixel.fb[py, px])
  {
    tiled.RoundAlpha(x, y, ww, hh, radius, color, alpha);
    perPixel.RoundGradientV(x, y, ww, hh, radius, color, color, alpha);
    hide Blend, ClipAlpha, Mix, Window.Tiled, Window.TilesRight;
    forall py, px | 0 <= py < tiled.fb.Length0 && 0 <= px < tiled.fb.Length1
      ensures perPixel.fb[py, px] == tiled.Clipped(old(tiled.fb[py, px]), x, y, ww, hh, radius, px, py, color, alpha)
      ensures tiled.TilesRight(x, y, ww, hh, radius) ==> tiled.fb[py, px] == perPixel.fb[py, px]
    {
      var was := old(tiled.fb[py, px]);
      if tiled.OnScreen(px, py) && InBox(px - x, py - y, ww, hh) {
        FlatGradient(was, color, RowShare(py - y, hh), ClipAlpha(px - x, py - y, ww, hh, radius, alpha));
      }
      if tiled.TilesRight(x, y, ww, hh, radius) {
        tiled.TiledIsClipped(was, x, y, ww, hh, radius, px, py, color, alpha);
      }
    }
  }

  /** At or right of and below the screen's origin, every tile fills right. */
  lemma OnScreenOriginFillsRight(w: Window, x: int, y: int, ww: int, hh: int, r: int)
    requires x >= 0 && y >= 0
    ensures w.TilesRight(x, y, ww, hh, r)
  {}
}
