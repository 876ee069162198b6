/**
  The rounded rectangle with one radius per corner (src/flush.c): three bands, up to four slabs
  beside shorter corners, and four anti-aliased corner squares.  Together they blend every pixel
  of the box exactly once, with the opacity that a per-pixel definition gives.
 */
module RoundRect {
  import opened Machine
  import opened Pixels
  import opened FlushBlend
  import opened Scissor
  import opened Canvas
  import opened Coverage

  datatype Radii = Radii(tl: int, tr: int, br: int, bl: int)

  function ClampRadius(r: int, half: int): int {
    if r < 0 then 0 else if r > half then half else r
  }

  /** Radii between 0 and half the shorter side. */
  function Clamped(q: Radii, w: int, h: int): Radii {
    var half := Min(w, h) / 2;
    Radii(ClampRadius(q.tl, half), ClampRadius(q.tr, half), ClampRadius(q.br, half), ClampRadius(q.bl, half))
  }

  /** A radius that two corners can have side by side. */
  predicate FittingRadius(r: int, w: int, h: int) {
    0 <= r && 2 * r <= w && 2 * r <= h
  }

  /** `r` is the greatest fitting radius that is not above the one asked for; none is asked for below 0. */
  ghost predicate GreatestFitting(r: int, asked: int, w: int, h: int) {
    && FittingRadius(r, w, h) && r <= Max(0, asked)
    && forall s :: FittingRadius(s, w, h) && s <= Max(0, asked) ==> s <= r
  }

  /** Every corner gets its own radius as far as it fits; fitting radii are used as they are. */
  lemma ClampedExactly(q: Radii, w: int, h: int)
    requires w > 0 && h > 0
    ensures var p := Clamped(q, w, h);
            && GreatestFitting(p.tl, q.tl, w, h) && GreatestFitting(p.tr, q.tr, w, h)
            && GreatestFitting(p.br, q.br, w, h) && GreatestFitting(p.bl, q.bl, w, h)
    ensures Clamped(q, w, h) == q <==> Fitting(q, w, h)
  {}

  /** The four clamps of adjacent radii against the side they share, in order. */
  function AgainstNeighbours(q: Radii, w: int, h: int): Radii {
    var q1 := if q.tl + q.tr > w then q.(tl := w / 2, tr := w - w / 2) else q;
    var q2 := if q1.bl + q1.br > w then q1.(bl := w / 2, br := w - w / 2) else q1;
    var q3 := if q2.tl + q2.bl > h then q2.(tl := h / 2, bl := h - h / 2) else q2;
    if q3.tr + q3.br > h then q3.(tr := h / 2, br := h - h / 2) else q3
  }

  predicate Fitting(q: Radii, w: int, h: int) {
    && FittingRadius(q.tl, w, h) && FittingRadius(q.tr, w, h)
    && FittingRadius(q.br, w, h) && FittingRadius(q.bl, w, h)
  }

  // ----- The per-pixel definition ------------------------------------------------------------------

  /** `(cov * alpha + 127) / 255`. */
  function Scaled(cov: Byte, alpha: Byte): (a: Byte)
    ensures cov == 255 ==> a == alpha
    ensures a <= alpha
    // rounded to nearest
    ensures -127 <= 255 * a - cov * alpha <= 127
  {
    assert 0 <= cov * alpha <= 255 * alpha;
    (cov * alpha + 127) / 255
  }

  function CornerAlpha(ix: int, iy: int, r: int, alpha: Byte): Byte
    requires 0 <= ix < r && 0 <= iy < r
  {
    Scaled(Covered(r - ix, r - iy, r), alpha)
  }

  datatype Corner = TopLeft | TopRight | BottomRight | BottomLeft

  /** Position counted from the corner. */
  function FromCorner(k: Corner, lx: int, ly: int, w: int, h: int): (int, int) {
    (if k.TopLeft? || k.BottomLeft? then lx else w - 1 - lx, if k.TopLeft? || k.TopRight? then ly else h - 1 - ly)
  }

  predicate InSquare(k: Corner, lx: int, ly: int, w: int, h: int, r: int) {
    var (ix, iy) := FromCorner(k, lx, ly, w, h);
    0 <= ix < r && 0 <= iy < r
  }

  function SquareAlpha(k: Corner, lx: int, ly: int, w: int, h: int, r: int, alpha: Byte): Byte
    requires InSquare(k, lx, ly, w, h, r)
  {
    var (ix, iy) := FromCorner(k, lx, ly, w, h);
    CornerAlpha(ix, iy, r, alpha)
  }

  /** The opacity of position (lx, ly) of the rectangle. */
  function AlphaAt(lx: int, ly: int, w: int, h: int, q: Radii, alpha: Byte): Byte {
    if InSquare(TopLeft, lx, ly, w, h, q.tl) then SquareAlpha(TopLeft, lx, ly, w, h, q.tl, alpha)
    else if InSquare(TopRight, lx, ly, w, h, q.tr) then SquareAlpha(TopRight, lx, ly, w, h, q.tr, alpha)
    else if InSquare(BottomRight, lx, ly, w, h, q.br) then SquareAlpha(BottomRight, lx, ly, w, h, q.br, alpha)
    else if InSquare(BottomLeft, lx, ly, w, h, q.bl) then SquareAlpha(BottomLeft, lx, ly, w, h, q.bl, alpha)
    else alpha
  }

  /** The opacity of a pixel (dx, dy) away from the centre of a disc. */
  ghost function DiscAlpha(dx: int, dy: int, r: int, alpha: Byte): Byte
    requires r > 0
  {
    CoverageIsCount(dx, dy, r);
    Scaled(|Samples(dx, dy, r, 16)| * 255 / 16, alpha)
  }

  lemma CornerIsDisc(dx: int, dy: int, ix: int, iy: int, r: int, alpha: Byte)
    requires 0 <= ix < r && 0 <= iy < r && Apart(dx) == r - ix && Apart(dy) == r - iy
    ensures CornerAlpha(ix, iy, r, alpha) == DiscAlpha(dx, dy, r, alpha)
  {
    hide Covered, Scaled;
    CoverageIsCount(dx, dy, r);
  }

  /** In every corner the rectangle has the shape of a disc of that corner's radius; elsewhere it is flat. */
  lemma CornersAreDiscs(lx: int, ly: int, w: int, h: int, q: Radii, alpha: Byte)
    requires w > 0 && h > 0 && Fitting(q, w, h) && InBox(lx, ly, w, h)
    ensures AlphaAt(lx, ly, w, h, q, alpha) ==
            if lx < q.tl && ly < q.tl then DiscAlpha(lx - q.tl, ly - q.tl, q.tl, alpha)
            else if lx >= w - q.tr && ly < q.tr then DiscAlpha(lx - (w - 1 - q.tr), ly - q.tr, q.tr, alpha)
            else if lx >= w - q.br && ly >= h - q.br then
              DiscAlpha(lx - (w - 1 - q.br), ly - (h - 1 - q.br), q.br, alpha)
            else if lx < q.bl && ly >= h - q.bl then DiscAlpha(lx - q.bl, ly - (h - 1 - q.bl), q.bl, alpha)
            else alpha
  {
    hide CornerAlpha, DiscAlpha;
    if lx < q.tl && ly < q.tl {
      CornerIsDisc(lx - q.tl, ly - q.tl, lx, ly, q.tl, alpha);
    } else if lx >= w - q.tr && ly < q.tr {
      CornerIsDisc(lx - (w - 1 - q.tr), ly - q.tr, w - 1 - lx, ly, q.tr, alpha);
    } else if lx >= w - q.br && ly >= h - q.br {
      CornerIsDisc(lx - (w - 1 - q.br), ly - (h - 1 - q.br), w - 1 - lx, h - 1 - ly, q.br, alpha);
    } else if lx < q.bl && ly >= h - q.bl {
      CornerIsDisc(lx - q.bl, ly - (h - 1 - q.bl), lx, h - 1 - ly, q.bl, alpha);
    }
  }

  /** rounded_pixel_cov: the coverage the noise and glow layers use for one radius. */
  function PixelCoverage(ix: int, iy: int, w: int, h: int, r: int): Byte
    requires InBox(ix, iy, w, h) && 2 * r <= w && 2 * r <= h
  {
    if r <= 0 then 255
    else if ix < r && iy < r then Covered(r - ix, r - iy, r)
    else if ix >= w - r && iy < r then Covered(ix - (w - r - 1), r - iy, r)
    else if ix < r && iy >= h - r then Covered(r - ix, iy - (h - r - 1), r)
    else if ix >= w - r && iy >= h - r then Covered(ix - (w - r - 1), iy - (h - r - 1), r)
    else 255
  }

  /** With one radius the fill has the shape of the per-pixel coverage function. */
  lemma UniformRadius(lx: int, ly: int, w: int, h: int, r: nat, alpha: Byte)
    requires InBox(lx, ly, w, h) && 2 * r <= w && 2 * r <= h
    ensures AlphaAt(lx, ly, w, h, Radii(r, r, r, r), alpha) == Scaled(PixelCoverage(lx, ly, w, h, r), alpha)
  {
    hide Covered;
  }

  // ----- The pieces --------------------------------------------------------------------------------

  /** The body of rasterize_corner's loops. */
  method CornerPixel(c: Canvas, cache: Cache, x: int, y: int, w: int, h: int, r: int, k: Corner, ix: int, iy: int,
                     color: Pixel, alpha: Byte)
    requires c.Valid() && cache.Valid() && 0 <= ix < r && 0 <= iy < r
    modifies c.backbuffer, cache.lut, cache.ready
    ensures cache.Valid()
    ensures forall py, px :: 0 <= py < FB_MAX_HEIGHT && 0 <= px < FB_MAX_WIDTH ==>
              c.backbuffer[py, px] == if FromCorner(k, px - x, py - y, w, h) == (ix, iy) && c.Visible(px, py)
                                      then Drawn(c.mode, old(c.backbuffer[py, px]), color,
                                                 CornerAlpha(ix, iy, r, alpha))
                                      else old(c.backbuffer[py, px])
  {
    hide Covered, BlendColor, Scaled;
    var cov := cache.Lookup(r - ix, r - iy, r);
    ScaledEnds(alpha);
    if cov == 0 { return; }
    var a: Byte := if cov == 255 && alpha == 255 then 255 else Scaled(cov, alpha);
    if a == 0 { return; }
    var px := match k
      case TopLeft => x + ix
      case TopRight => x + w - 1 - ix
      case BottomRight => x + w - 1 - ix
      case BottomLeft => x + ix;
    var py := match k
      case TopLeft => y + iy
      case TopRight => y + iy
      case BottomRight => y + h - 1 - iy
      case BottomLeft => y + h - 1 - iy;
    c.BlendPixel(px, py, color, a);
  }

  /** The inner loop of rasterize_corner. */
  method CornerRow(c: Canvas, cache: Cache, x: int, y: int, w: int, h: int, r: int, k: Corner, iy: int,
                   color: Pixel, alpha: Byte)
    requires c.Valid() && cache.Valid() && 0 <= iy < r
    modifies c.backbuffer, cache.lut, cache.ready
    ensures cache.Valid()
    ensures forall py, px :: 0 <= py < FB_MAX_HEIGHT && 0 <= px < FB_MAX_WIDTH ==>
              var (jx, jy) := FromCorner(k, px - x, py - y, w, h);
              c.backbuffer[py, px] == if jy == iy && 0 <= jx < r && c.Visible(px, py)
                                      then Drawn(c.mode, old(c.backbuffer[py, px]), color,
                                                 CornerAlpha(jx, iy, r, alpha))
                                      else old(c.backbuffer[py, px])
  {
    hide Drawn, CornerAlpha;
    for ix := 0 to r
      invariant cache.Valid()
      invariant forall py, px :: 0 <= py < FB_MAX_HEIGHT && 0 <= px < FB_MAX_WIDTH ==>
                  var (jx, jy) := FromCorner(k, px - x, py - y, w, h);
                  c.backbuffer[py, px] == if jy == iy && 0 <= jx < ix && c.Visible(px, py)
                                          then Drawn(c.mode, old(c.backbuffer[py, px]), color,
                                                     CornerAlpha(jx, iy, r, alpha))
                                          else old(c.backbuffer[py, px])
    {
      CornerPixel(c, cache, x, y, w, h, r, k, ix, iy, color, alpha);
    }
  }

  /** rasterize_corner. */
  method RasterizeCorner(c: Canvas, cache: Cache, x: int, y: int, w: int, h: int, r: int, k: Corner,
                         color: Pixel, alpha: Byte)
    requires c.Valid() && cache.Valid()
    modifies c.backbuffer, cache.lut, cache.ready
    ensures cache.Valid()
    ensures forall py, px :: 0 <= py < FB_MAX_HEIGHT && 0 <= px < FB_MAX_WIDTH ==>
              c.backbuffer[py, px] == if InSquare(k, px - x, py - y, w, h, r) && c.Visible(px, py)
                                      then Drawn(c.mode, old(c.backbuffer[py, px]), color,
                                                 SquareAlpha(k, px - x, py - y, w, h, r, alpha))
                                      else old(c.backbuffer[py, px])
  {
    hide Drawn, CornerAlpha;
    if r <= 0 { return; }
    for iy := 0 to r
      invariant cache.Valid()
      invariant forall py, px :: 0 <= py < FB_MAX_HEIGHT && 0 <= px < FB_MAX_WIDTH ==>
                  c.backbuffer[py, px] == if InSquare(k, px - x, py - y, w, h, r) && c.Visible(px, py)
                                             && FromCorner(k, px - x, py - y, w, h).1 < iy
                                          then Drawn(c.mode, old(c.backbuffer[py, px]), color,
                                                     SquareAlpha(k, px - x, py - y, w, h, r, alpha))
                                          else old(c.backbuffer[py, px])
    {
      CornerRow(c, cache, x, y, w, h, r, k, iy, color, alpha);
    }
  }

  lemma ScaledEnds(alpha: Byte)
    ensures Scaled(0, alpha) == 0 && Scaled(255, alpha) == alpha
  {}

  predicate InTopBand(lx: int, ly: int, w: int, q: Radii) {
    && 0 <= ly < Max(q.tl, q.tr) && 0 <= lx < w
    && !(lx < q.tl && ly < q.tl) && !(lx >= w - q.tr && ly < q.tr)
  }

  predicate InBottomBand(lx: int, ly: int, w: int, h: int, q: Radii) {
    && h - Max(q.bl, q.br) <= ly < h && 0 <= lx < w
    && !(lx < q.bl && ly >= h - q.bl) && !(lx >= w - q.br && ly >= h - q.br)
  }

  // ----- The rectangles of the bands -----------------------------------------------------------------

  function MiddleTile(x: int, y: int, w: int, h: int, q: Radii): Rect {
    Rect(x, y + Max(q.tl, q.tr), w, h - Max(q.tl, q.tr) - Max(q.bl, q.br))
  }

  function TopTiles(x: int, y: int, w: int, q: Radii): (tiles: seq<Rect>)
    ensures |tiles| == 3
  {
    var top := Max(q.tl, q.tr);
    [Rect(x + q.tl, y, w - q.tl - q.tr, top),
     Rect(x, y + q.tl, q.tl, top - q.tl),
     Rect(x + w - q.tr, y + q.tr, q.tr, top - q.tr)]
  }

  function BottomTiles(x: int, y: int, w: int, h: int, q: Radii): (tiles: seq<Rect>)
    ensures |tiles| == 3
  {
    var bot := Max(q.bl, q.br);
    [Rect(x + q.bl, y + h - bot, w - q.bl - q.br, bot),
     Rect(x, y + h - bot, q.bl, bot - q.bl),
     Rect(x + w - q.br, y + h - bot, q.br, bot - q.br)]
  }

  function Tiles(x: int, y: int, w: int, h: int, q: Radii): (tiles: seq<Rect>)
    ensures |tiles| == 7
  {
    [MiddleTile(x, y, w, h, q)] + TopTiles(x, y, w, q) + BottomTiles(x, y, w, h, q)
  }

  function Over(c: Canvas, dst: Pixel, r: Rect, px: int, py: int, color: Pixel, alpha: Byte): Pixel
    requires c.Valid()
    reads c, c.entries
  {
    if c.RectTouched(r, px, py) then Drawn(c.mode, dst, color, alpha) else dst
  }

  /** A pixel after the rectangles are drawn one over the other. */
  function Painted(c: Canvas, dst: Pixel, tiles: seq<Rect>, px: int, py: int, color: Pixel, alpha: Byte): Pixel
    requires c.Valid()
    reads c, c.entries
  {
    if tiles == [] then dst
    else Over(c, Painted(c, dst, tiles[..|tiles| - 1], px, py, color, alpha), tiles[|tiles| - 1], px, py, color, alpha)
  }

  lemma {:induction false} PaintedAdd(c: Canvas, dst: Pixel, a: seq<Rect>, b: seq<Rect>, px: int, py: int,
                                      color: Pixel, alpha: Byte)
    requires c.Valid()
    ensures Painted(c, dst, a + b, px, py, color, alpha) ==
            Painted(c, Painted(c, dst, a, px, py, color, alpha), b, px, py, color, alpha)
  {
    hide Over;
    if b == [] {
      assert a + b == a;
    } else {
      PaintedAdd(c, dst, a, b[..|b| - 1], px, py, color, alpha);
      assert (a + b)[..|a + b| - 1] == a + b[..|b| - 1];
    }
  }

  lemma PaintedThree(c: Canvas, dst: Pixel, tiles: seq<Rect>, px: int, py: int, color: Pixel, alpha: Byte)
    requires c.Valid() && |tiles| == 3
    ensures Painted(c, dst, tiles, px, py, color, alpha) ==
            var d0 := Over(c, dst, tiles[0], px, py, color, alpha);
            Over(c, Over(c, d0, tiles[1], px, py, color, alpha), tiles[2], px, py, color, alpha)
  {
    hide Over;
    var two := tiles[..2];
    assert two[..1] == tiles[..1] && tiles[..1][..0] == [];
    assert Painted(c, dst, tiles[..1], px, py, color, alpha) == Over(c, dst, tiles[0], px, py, color, alpha);
  }

  method TopBand(c: Canvas, x: Int32, y: Int32, w: Int32, h: Int32, q: Radii, color: Pixel, alpha: Byte)
    requires c.Valid() && c.ScissorInRange() && w > 0 && h > 0 && x + w < 0x8000_0000 && y + h < 0x8000_0000
    requires Fitting(q, w, h)
    modifies c.backbuffer
    ensures forall py, px :: 0 <= py < FB_MAX_HEIGHT && 0 <= px < FB_MAX_WIDTH ==>
              c.backbuffer[py, px] == Painted(c, old(c.backbuffer[py, px]), TopTiles(x, y, w, q), px, py, color, alpha)
  {
    hide Drawn, Painted, Canvas.Touched, Canvas.RowShown;
    var topMax := Max(q.tl, q.tr);
    if topMax > 0 {
      if w > q.tl + q.tr { c.DrawRect(x + q.tl, y, w - q.tl - q.tr, topMax, color, alpha); }
      if q.tl < topMax { c.DrawRect(x, y + q.tl, q.tl, topMax - q.tl, color, alpha); }
      if q.tr < topMax { c.DrawRect(x + w - q.tr, y + q.tr, q.tr, topMax - q.tr, color, alpha); }
    }
    forall py, px | 0 <= py < FB_MAX_HEIGHT && 0 <= px < FB_MAX_WIDTH
      ensures c.backbuffer[py, px] ==
              Painted(c, old(c.backbuffer[py, px]), TopTiles(x, y, w, q), px, py, color, alpha)
    {
      PaintedThree(c, old(c.backbuffer[py, px]), TopTiles(x, y, w, q), px, py, color, alpha);
    }
  }

  method BottomBand(c: Canvas, x: Int32, y: Int32, w: Int32, h: Int32, q: Radii, color: Pixel, alpha: Byte)
    requires c.Valid() && c.ScissorInRange() && w > 0 && h > 0 && x + w < 0x8000_0000 && y + h < 0x8000_0000
    requires Fitting(q, w, h)
    modifies c.backbuffer
    ensures forall py, px :: 0 <= py < FB_MAX_HEIGHT && 0 <= px < FB_MAX_WIDTH ==>
              c.backbuffer[py, px] ==
              Painted(c, old(c.backbuffer[py, px]), BottomTiles(x, y, w, h, q), px, py, color, alpha)
  {
    hide Drawn, Painted, Canvas.Touched, Canvas.RowShown;
    var botMax := Max(q.bl, q.br);
    if botMax > 0 {
      if w > q.bl + q.br { c.DrawRect(x + q.bl, y + h - botMax, w - q.bl - q.br, botMax, color, alpha); }
      if q.bl < botMax { c.DrawRect(x, y + h - botMax, q.bl, botMax - q.bl, color, alpha); }
      if q.br < botMax { c.DrawRect(x + w - q.br, y + h - botMax, q.br, botMax - q.br, color, alpha); }
    }
    forall py, px | 0 <= py < FB_MAX_HEIGHT && 0 <= px < FB_MAX_WIDTH
      ensures c.backbuffer[py, px] ==
              Painted(c, old(c.backbuffer[py, px]), BottomTiles(x, y, w, h, q), px, py, color, alpha)
    {
      PaintedThree(c, old(c.backbuffer[py, px]), BottomTiles(x, y, w, h, q), px, py, color, alpha);
    }
  }

  /** Bands and slabs: everything but the corner squares. */
  method DrawBands(c: Canvas, x: Int32, y: Int32, w: Int32, h: Int32, q: Radii, color: Pixel, alpha: Byte)
    requires c.Valid() && c.ScissorInRange() && w > 0 && h > 0 && x + w < 0x8000_0000 && y + h < 0x8000_0000
    requires Fitting(q, w, h)
    modifies c.backbuffer
    ensures forall py, px :: 0 <= py < FB_MAX_HEIGHT && 0 <= px < FB_MAX_WIDTH ==>
              c.backbuffer[py, px] == Painted(c, old(c.backbuffer[py, px]), Tiles(x, y, w, h, q), px, py, color, alpha)
  {
    hide Drawn, Painted, TopTiles, BottomTiles, Canvas.Touched, Canvas.RowShown;
    var topMax, botMax := Max(q.tl, q.tr), Max(q.bl, q.br);
    if h > topMax + botMax { c.DrawRect(x, y + topMax, w, h - topMax - botMax, color, alpha); }
    TopBand(c, x, y, w, h, q, color, alpha);
    BottomBand(c, x, y, w, h, q, color, alpha);
    forall py, px | 0 <= py < FB_MAX_HEIGHT && 0 <= px < FB_MAX_WIDTH
      ensures c.backbuffer[py, px] ==
              Painted(c, old(c.backbuffer[py, px]), Tiles(x, y, w, h, q), px, py, color, alpha)
    {
      PaintedInBands(c, old(c.backbuffer[py, px]), x, y, w, h, q, px, py, color, alpha);
    }
  }

  lemma PaintedInBands(c: Canvas, dst: Pixel, x: int, y: int, w: int, h: int, q: Radii, px: int, py: int,
                       color: Pixel, alpha: Byte)
    requires c.Valid()
    ensures Painted(c, dst, Tiles(x, y, w, h, q), px, py, color, alpha) ==
            var d0 := Over(c, dst, MiddleTile(x, y, w, h, q), px, py, color, alpha);
            var d1 := Painted(c, d0, TopTiles(x, y, w, q), px, py, color, alpha);
            Painted(c, d1, BottomTiles(x, y, w, h, q), px, py, color, alpha)
  {
    hide Over, TopTiles, BottomTiles, MiddleTile;
    var mid, top, bottom := [MiddleTile(x, y, w, h, q)], TopTiles(x, y, w, q), BottomTiles(x, y, w, h, q);
    PaintedAdd(c, dst, mid + top, bottom, px, py, color, alpha);
    PaintedAdd(c, dst, mid, top, px, py, color, alpha);
    assert mid[..0] == [];
    assert Painted(c, dst, mid, px, py, color, alpha) == Over(c, dst, mid[0], px, py, color, alpha);
  }

  // ----- When the rectangles are the straight part of the box ---------------------------------------------

  /** How many of the rectangles are drawn over a pixel. */
  function Coats(c: Canvas, tiles: seq<Rect>, px: int, py: int): nat
    requires c.Valid()
    reads c, c.entries
  {
    if tiles == [] then 0
    else Coats(c, tiles[..|tiles| - 1], px, py) + if c.RectTouched(tiles[|tiles| - 1], px, py) then 1 else 0
  }

  lemma {:induction false} PaintedOnce(c: Canvas, dst: Pixel, tiles: seq<Rect>, px: int, py: int,
                                       color: Pixel, alpha: Byte)
    requires c.Valid() && Coats(c, tiles, px, py) <= 1
    ensures Painted(c, dst, tiles, px, py, color, alpha) ==
            if Coats(c, tiles, px, py) == 1 then Drawn(c.mode, dst, color, alpha) else dst
  {
    hide Drawn;
    if tiles != [] { PaintedOnce(c, dst, tiles[..|tiles| - 1], px, py, color, alpha); }
  }

  predicate TilesReach(c: Canvas, tiles: seq<Rect>)
    requires c.Valid()
    reads c, c.entries
  {
    forall i :: 0 <= i < |tiles| ==> c.RectReaches(tiles[i])
  }

  predicate InStraightPart(lx: int, ly: int, w: int, h: int, q: Radii) {
    InBox(lx, ly, w, h) && !InAnySquare(lx, ly, w, h, q)
  }

  function In(r: Rect, px: int, py: int): nat {
    if InRect(r, px, py) then 1 else 0
  }

  /** How many of the rectangles contain a position. */
  function Holding(tiles: seq<Rect>, px: int, py: int): nat {
    if tiles == [] then 0
    else Holding(tiles[..|tiles| - 1], px, py) + In(tiles[|tiles| - 1], px, py)
  }

  predicate InAnySquare(lx: int, ly: int, w: int, h: int, q: Radii) {
    || InSquare(TopLeft, lx, ly, w, h, q.tl) || InSquare(TopRight, lx, ly, w, h, q.tr)
    || InSquare(BottomRight, lx, ly, w, h, q.br) || InSquare(BottomLeft, lx, ly, w, h, q.bl)
  }

  predicate InMiddle(lx: int, ly: int, w: int, h: int, q: Radii) {
    0 <= lx < w && Max(q.tl, q.tr) <= ly < h - Max(q.bl, q.br)
  }

  lemma BandsHold(x: int, y: int, w: int, h: int, q: Radii, px: int, py: int)
    requires w > 0 && h > 0 && Fitting(q, w, h)
    ensures In(MiddleTile(x, y, w, h, q), px, py) == if InMiddle(px - x, py - y, w, h, q) then 1 else 0
    ensures var t := TopTiles(x, y, w, q);
            In(t[0], px, py) + In(t[1], px, py) + In(t[2], px, py) == if InTopBand(px - x, py - y, w, q) then 1 else 0
    ensures var t := BottomTiles(x, y, w, h, q);
            In(t[0], px, py) + In(t[1], px, py) + In(t[2], px, py)
            == if InBottomBand(px - x, py - y, w, h, q) then 1 else 0
  {}

  lemma BandsAroundSquares(lx: int, ly: int, w: int, h: int, q: Radii)
    requires w > 0 && h > 0 && Fitting(q, w, h)
    ensures InStraightPart(lx, ly, w, h, q) <==>
            InMiddle(lx, ly, w, h, q) || InTopBand(lx, ly, w, q) || InBottomBand(lx, ly, w, h, q)
    ensures !(InMiddle(lx, ly, w, h, q) && InTopBand(lx, ly, w, q))
    ensures !(InMiddle(lx, ly, w, h, q) && InBottomBand(lx, ly, w, h, q))
    ensures !(InTopBand(lx, ly, w, q) && InBottomBand(lx, ly, w, h, q))
  {}

  lemma StraightPartHeld(x: int, y: int, w: int, h: int, q: Radii, px: int, py: int)
    requires w > 0 && h > 0 && Fitting(q, w, h)
    ensures Holding(Tiles(x, y, w, h, q), px, py) == if InStraightPart(px - x, py - y, w, h, q) then 1 else 0
  {
    hide Holding, In, InMiddle, InTopBand, InBottomBand, InStraightPart, MiddleTile, TopTiles, BottomTiles;
    HoldingSeven(Tiles(x, y, w, h, q), px, py);
    BandsHold(x, y, w, h, q, px, py);
    BandsAroundSquares(px - x, py - y, w, h, q);
  }

  /** Rectangles and corner squares partition the box: every position is in exactly one of them. */
  lemma Partition(x: int, y: int, w: int, h: int, q: Radii, px: int, py: int)
    requires w > 0 && h > 0 && Fitting(q, w, h)
    ensures var lx, ly := px - x, py - y;
            var squares := [InSquare(TopLeft, lx, ly, w, h, q.tl), InSquare(TopRight, lx, ly, w, h, q.tr),
                            InSquare(BottomRight, lx, ly, w, h, q.br), InSquare(BottomLeft, lx, ly, w, h, q.bl)];
            && (forall i, j :: 0 <= i < j < 4 ==> !(squares[i] && squares[j]))
            && (true in squares ==> InBox(lx, ly, w, h))
            && Holding(Tiles(x, y, w, h, q), px, py) == if InBox(lx, ly, w, h) && true !in squares then 1 else 0
  {
    hide Holding, Tiles;
    var lx, ly := px - x, py - y;
    var squares := [InSquare(TopLeft, lx, ly, w, h, q.tl), InSquare(TopRight, lx, ly, w, h, q.tr),
                    InSquare(BottomRight, lx, ly, w, h, q.br), InSquare(BottomLeft, lx, ly, w, h, q.bl)];
    assert squares[0] || squares[1] || squares[2] || squares[3] <==> true in squares;
    StraightPartHeld(x, y, w, h, q, px, py);
  }

  lemma HoldingSeven(tiles: seq<Rect>, px: int, py: int)
    requires |tiles| == 7
    ensures Holding(tiles, px, py) ==
            In(tiles[0], px, py) + (In(tiles[1], px, py) + In(tiles[2], px, py) + In(tiles[3], px, py))
            + (In(tiles[4], px, py) + In(tiles[5], px, py) + In(tiles[6], px, py))
  {
    hide Holding, In;
    HoldingLast(tiles, px, py, 7);
    HoldingLast(tiles, px, py, 6);
    HoldingLast(tiles, px, py, 5);
    HoldingLast(tiles, px, py, 4);
    HoldingLast(tiles, px, py, 3);
    HoldingLast(tiles, px, py, 2);
    HoldingLast(tiles, px, py, 1);
    assert tiles[..7] == tiles;
  }

  lemma HoldingLast(tiles: seq<Rect>, px: int, py: int, n: nat)
    requires 0 < n <= |tiles|
    ensures Holding(tiles[..n], px, py) == Holding(tiles[..n - 1], px, py) + In(tiles[n - 1], px, py)
    ensures Holding(tiles[..0], px, py) == 0
  {
    assert tiles[..n][..n - 1] == tiles[..n - 1];
  }

  method DrawCorners(c: Canvas, cache: Cache, x: int, y: int, w: int, h: int, q: Radii, color: Pixel, alpha: Byte)
    requires c.Valid() && cache.Valid() && w > 0 && h > 0 && Fitting(q, w, h)
    modifies c.backbuffer, cache.lut, cache.ready
    ensures cache.Valid()
    ensures forall py, px :: 0 <= py < FB_MAX_HEIGHT && 0 <= px < FB_MAX_WIDTH ==>
              c.backbuffer[py, px] == if InAnySquare(px - x, py - y, w, h, q) && c.Visible(px, py)
                                      then Drawn(c.mode, old(c.backbuffer[py, px]), color,
                                                 AlphaAt(px - x, py - y, w, h, q, alpha))
                                      else old(c.backbuffer[py, px])
  {
    hide Drawn, SquareAlpha;
    RasterizeCorner(c, cache, x, y, w, h, q.tl, TopLeft, color, alpha);
    RasterizeCorner(c, cache, x, y, w, h, q.tr, TopRight, color, alpha);
    RasterizeCorner(c, cache, x, y, w, h, q.br, BottomRight, color, alpha);
    RasterizeCorner(c, cache, x, y, w, h, q.bl, BottomLeft, color, alpha);
  }

  /** The rectangles lie where positions are `int`s. */
  predicate TilesFit(tiles: seq<Rect>) {
    forall i :: 0 <= i < |tiles| ==> -0x8000_0000 <= tiles[i].x + tiles[i].w < 0x8000_0000
  }

  function VisibleHolding(c: Canvas, tiles: seq<Rect>, px: int, py: int): nat
    requires c.Valid()
    reads c, c.entries
  {
    if c.Visible(px, py) then Holding(tiles, px, py) else 0
  }

  lemma {:induction false} CoatsAtLeast(c: Canvas, tiles: seq<Rect>, px: int, py: int)
    requires c.Valid() && c.ScissorInRange() && TilesFit(tiles)
    ensures Coats(c, tiles, px, py) >= VisibleHolding(c, tiles, px, py)
    ensures TilesReach(c, tiles) ==> Coats(c, tiles, px, py) == VisibleHolding(c, tiles, px, py)
  {
    hide Canvas.RectTouched, Canvas.Visible, Canvas.RectReaches, InRect;
    if tiles != [] {
      CoatsAtLeast(c, tiles[..|tiles| - 1], px, py);
      c.RectExactly(tiles[|tiles| - 1]);
    }
  }

  lemma {:induction false} CoatsMore(c: Canvas, tiles: seq<Rect>, i: nat, px: int, py: int)
    requires c.Valid() && c.ScissorInRange() && TilesFit(tiles) && i < |tiles|
    requires c.RectTouched(tiles[i], px, py) && !(InRect(tiles[i], px, py) && c.Visible(px, py))
    ensures Coats(c, tiles, px, py) > VisibleHolding(c, tiles, px, py)
  {
    hide Canvas.RectTouched, Canvas.Visible, Canvas.RectReaches, InRect;
    var init := tiles[..|tiles| - 1];
    c.RectExactly(tiles[|tiles| - 1]);
    if i < |tiles| - 1 { CoatsMore(c, init, i, px, py); } else { CoatsAtLeast(c, init, px, py); }
  }

  lemma OnceWhenReaching(c: Canvas, x: Int32, y: int, w: Int32, h: int, q: Radii, px: int, py: int)
    requires c.Valid() && c.ScissorInRange() && w > 0 && h > 0 && x + w < 0x8000_0000 && Fitting(q, w, h)
    requires TilesReach(c, Tiles(x, y, w, h, q))
    ensures Coats(c, Tiles(x, y, w, h, q), px, py) ==
            if InStraightPart(px - x, py - y, w, h, q) && c.Visible(px, py) then 1 else 0
  {
    hide Coats, Holding, InStraightPart, TilesReach, Tiles, Canvas.Visible;
    TilesInRange(x, y, w, h, q);
    StraightPartHeld(x, y, w, h, q, px, py);
    CoatsAtLeast(c, Tiles(x, y, w, h, q), px, py);
  }

  /** The rectangles blend every visible pixel of the straight part once and no other, if and only if they reach. */
  lemma OnceExactly(c: Canvas, x: Int32, y: int, w: Int32, h: int, q: Radii)
    requires c.Valid() && c.ScissorInRange() && w > 0 && h > 0 && x + w < 0x8000_0000 && Fitting(q, w, h)
    ensures (forall px, py :: Coats(c, Tiles(x, y, w, h, q), px, py) ==
                              if InStraightPart(px - x, py - y, w, h, q) && c.Visible(px, py) then 1 else 0)
            <==> TilesReach(c, Tiles(x, y, w, h, q))
  {
    hide Coats, Holding, InStraightPart, Canvas.RectReaches, Canvas.RectTouched, Canvas.Visible;
    var tiles := Tiles(x, y, w, h, q);
    TilesInRange(x, y, w, h, q);
    if TilesReach(c, tiles) {
      forall px, py
        ensures Coats(c, tiles, px, py) ==
                if InStraightPart(px - x, py - y, w, h, q) && c.Visible(px, py) then 1 else 0
      {
        OnceWhenReaching(c, x, y, w, h, q, px, py);
      }
    } else {
      var i :| 0 <= i < |tiles| && !c.RectReaches(tiles[i]);
      c.RectExactly(tiles[i]);
      var px, py :| c.RectTouched(tiles[i], px, py) && !(InRect(tiles[i], px, py) && c.Visible(px, py));
      StraightPartHeld(x, y, w, h, q, px, py);
      CoatsMore(c, tiles, i, px, py);
    }
  }

  lemma TilesInRange(x: Int32, y: int, w: Int32, h: int, q: Radii)
    requires w > 0 && h > 0 && x + w < 0x8000_0000 && Fitting(q, w, h)
    ensures TilesFit(Tiles(x, y, w, h, q))
  {}

  // ----- The routine ----------------------------------------------------------------------------------------

  /** What the routine makes of a pixel, in all cases. */
  function Rounded(c: Canvas, dst: Pixel, x: int, y: int, w: int, h: int, q: Radii, px: int, py: int,
                   color: Pixel, alpha: Byte): Pixel
    requires c.Valid()
    reads c, c.entries
  {
    var painted := Painted(c, dst, Tiles(x, y, w, h, q), px, py, color, alpha);
    if InAnySquare(px - x, py - y, w, h, q) && c.Visible(px, py)
    then Drawn(c.mode, painted, color, AlphaAt(px - x, py - y, w, h, q, alpha)) else painted
  }

  /** What the per-pixel definition says of it. */
  function Shaped(c: Canvas, dst: Pixel, x: int, y: int, w: int, h: int, q: Radii, px: int, py: int,
                  color: Pixel, alpha: Byte): Pixel
    requires c.Valid()
    reads c, c.entries
  {
    if InBox(px - x, py - y, w, h) && c.Visible(px, py)
    then Drawn(c.mode, dst, color, AlphaAt(px - x, py - y, w, h, q, alpha)) else dst
  }

  lemma RoundedIsShaped(c: Canvas, dst: Pixel, x: Int32, y: int, w: Int32, h: int, q: Radii, px: int, py: int,
                        color: Pixel, alpha: Byte)
    requires c.Valid() && c.ScissorInRange() && w > 0 && h > 0 && x + w < 0x8000_0000 && Fitting(q, w, h)
    requires TilesReach(c, Tiles(x, y, w, h, q))
    ensures Rounded(c, dst, x, y, w, h, q, px, py, color, alpha) == Shaped(c, dst, x, y, w, h, q, px, py, color, alpha)
  {
    hide Drawn, AlphaAt, Painted, Coats, Holding, Tiles, TilesReach, InAnySquare, InBox, Canvas.Visible;
    OnceWhenReaching(c, x, y, w, h, q, px, py);
    PaintedOnce(c, dst, Tiles(x, y, w, h, q), px, py, color, alpha);
    OutsideSquares(px - x, py - y, w, h, q, alpha);
    SquaresInBox(px - x, py - y, w, h, q);
  }

  lemma SquaresInBox(lx: int, ly: int, w: int, h: int, q: Radii)
    requires w > 0 && h > 0 && Fitting(q, w, h)
    ensures InAnySquare(lx, ly, w, h, q) ==> InBox(lx, ly, w, h)
  {}

  method DrawClamped(c: Canvas, cache: Cache, x: Int32, y: Int32, w: Int32, h: Int32, q: Radii,
                     color: Pixel, alpha: Byte)
    requires c.Valid() && c.ScissorInRange() && cache.Valid() && x + w < 0x8000_0000 && y + h < 0x8000_0000
    requires w > 0 && h > 0 && Fitting(q, w, h)
    modifies c.backbuffer, cache.lut, cache.ready
    ensures cache.Valid()
    ensures forall py, px :: 0 <= py < FB_MAX_HEIGHT && 0 <= px < FB_MAX_WIDTH ==>
              c.backbuffer[py, px] == Rounded(c, old(c.backbuffer[py, px]), x, y, w, h, q, px, py, color, alpha)
  {
    hide Drawn, AlphaAt, InAnySquare, InBox, Painted, Tiles, Canvas.Visible;
    DrawBands(c, x, y, w, h, q, color, alpha);
    DrawCorners(c, cache, x, y, w, h, q, color, alpha);
  }

  /**
    draw_rounded_rect_alpha4: exactly what it paints, which is the per-pixel definition when its
    rectangles reach.
   */
  method DrawRounded(c: Canvas, cache: Cache, x: Int32, y: Int32, w: Int32, h: Int32, q: Radii,
                     color: Pixel, alpha: Byte)
    requires c.Valid() && c.ScissorInRange() && cache.Valid() && x + w < 0x8000_0000 && y + h < 0x8000_0000
    modifies c.backbuffer, cache.lut, cache.ready
    ensures cache.Valid()
    ensures forall py, px :: 0 <= py < FB_MAX_HEIGHT && 0 <= px < FB_MAX_WIDTH ==>
              var p := Clamped(q, w, h);
              && c.backbuffer[py, px] == (if w <= 0 || h <= 0 then old(c.backbuffer[py, px])
                   else Rounded(c, old(c.backbuffer[py, px]), x, y, w, h, p, px, py, color, alpha))
              && (TilesReach(c, Tiles(x, y, w, h, p)) ==>
                   c.backbuffer[py, px] == Shaped(c, old(c.backbuffer[py, px]), x, y, w, h, p, px, py, color, alpha))
              && (Fitting(q, w, h) && TilesReach(c, Tiles(x, y, w, h, q)) ==>
                   c.backbuffer[py, px] == Shaped(c, old(c.backbuffer[py, px]), x, y, w, h, q, px, py, color, alpha))
  {
    hide Rounded, Shaped, Tiles, TilesReach, Clamped, AgainstNeighbours;
    if w <= 0 || h <= 0 {
      NothingShaped(c, x, y, w, h, q, color, alpha);
      NothingShaped(c, x, y, w, h, Clamped(q, w, h), color, alpha);
      return;
    }
    AdjacentClampsIdle(q, w, h);
    ClampedExactly(q, w, h);
    var p := AgainstNeighbours(Clamped(q, w, h), w, h);
    if alpha == 0 {
      NothingRounded(c, x, y, w, h, p, color);
    } else {
      DrawClamped(c, cache, x, y, w, h, p, color, alpha);
    }
    if TilesReach(c, Tiles(x, y, w, h, p)) {
      forall dst, px, py
        ensures Rounded(c, dst, x, y, w, h, p, px, py, color, alpha) ==
                Shaped(c, dst, x, y, w, h, p, px, py, color, alpha)
      {
        RoundedIsShaped(c, dst, x, y, w, h, p, px, py, color, alpha);
      }
    }
  }

  lemma NothingShaped(c: Canvas, x: int, y: int, w: int, h: int, q: Radii, color: Pixel, alpha: Byte)
    requires c.Valid() && (w <= 0 || h <= 0)
    ensures forall dst, px, py :: Shaped(c, dst, x, y, w, h, q, px, py, color, alpha) == dst
  {}

  lemma {:induction false} PaintedNothing(c: Canvas, dst: Pixel, tiles: seq<Rect>, px: int, py: int, color: Pixel)
    requires c.Valid()
    ensures Painted(c, dst, tiles, px, py, color, 0) == dst
  {
    if tiles != [] { PaintedNothing(c, dst, tiles[..|tiles| - 1], px, py, color); }
  }

  lemma NothingRounded(c: Canvas, x: int, y: int, w: int, h: int, q: Radii, color: Pixel)
    requires c.Valid()
    ensures forall dst, px, py :: Rounded(c, dst, x, y, w, h, q, px, py, color, 0) == dst
  {
    hide Painted, Tiles, AlphaAt;
    AllTransparent(w, h, q);
    forall dst, px, py ensures Rounded(c, dst, x, y, w, h, q, px, py, color, 0) == dst {
      PaintedNothing(c, dst, Tiles(x, y, w, h, q), px, py, color);
    }
  }

  lemma OutsideSquares(lx: int, ly: int, w: int, h: int, q: Radii, alpha: Byte)
    ensures !InAnySquare(lx, ly, w, h, q) ==> AlphaAt(lx, ly, w, h, q, alpha) == alpha
  {}

  lemma AllTransparent(w: int, h: int, q: Radii)
    ensures forall lx, ly :: AlphaAt(lx, ly, w, h, q, 0) == 0
  {
    hide Covered;
  }

  /** After the half-size clamp, the clamps against adjacent corners never fire. */
  lemma AdjacentClampsIdle(q: Radii, w: int, h: int)
    requires w > 0 && h > 0
    ensures Fitting(Clamped(q, w, h), w, h)
    ensures AgainstNeighbours(Clamped(q, w, h), w, h) == Clamped(q, w, h)
  {}

  /** A rectangle at or right of column 0, under a scissor that reaches it, has all its tiles reach. */
  lemma OnScreenOriginReaches(c: Canvas, x: int, y: int, w: int, h: int, q: Radii)
    requires c.Valid() && x >= 0 && w > 0 && h > 0 && Fitting(q, w, h)
    requires c.depth > 0 ==> c.entries[c.depth - 1].x + c.entries[c.depth - 1].w >= 0
    ensures TilesReach(c, Tiles(x, y, w, h, q))
  {}
}
