/**
  blur_rect of src/flush.c on its BGRA path: clipping, then alternating horizontal and vertical
  passes over a rectangle of the backbuffer, each equal to the naive blur of every line.
 */
module BlurRect {
  import opened Machine
  import opened Pixels
  import opened Blur
  import opened Products
  import Clip

  predicate Sized(img: Image, w: nat) {
    forall j :: 0 <= j < |img| ==> |img[j]| == w
  }

  function Column(img: Image, w: nat, i: nat): (col: seq<Pixel>)
    requires Sized(img, w) && i < w
    ensures |col| == |img|
  {
    seq(|img|, j requires 0 <= j < |img| => img[j][i])
  }

  function Rows(img: Image, w: nat, r: nat): (out: Image)
    requires Sized(img, w) && 1 <= r <= MAX_RADIUS
    ensures |out| == |img| && Sized(out, w)
  {
    seq(|img|, j requires 0 <= j < |img| => BlurredLine(img[j], r))
  }

  function Columns(img: Image, w: nat, r: nat): (out: Image)
    requires Sized(img, w) && 1 <= r <= MAX_RADIUS
    ensures |out| == |img| && Sized(out, w)
  {
    seq(|img|, j requires 0 <= j < |img| =>
      seq(w, i requires 0 <= i < w => BlurredLine(Column(img, w, i), r)[j]))
  }

  /** `p` rounds of the naive clamped-window blur, rows first. */
  function Blurred(img: Image, w: nat, r: nat, p: nat): (out: Image)
    requires Sized(img, w) && 1 <= r <= MAX_RADIUS
    ensures |out| == |img| && Sized(out, w)
  {
    if p == 0 then img else Columns(Rows(Blurred(img, w, r, p - 1), w, r), w, r)
  }

  // ----- The routine -----------------------------------------------------------------------------

  predicate Fits(buf: array2<Pixel>, x: int, y: int, w: int, h: int) {
    0 <= x && 0 <= y && 0 < w && 0 < h && x + w <= buf.Length1 && y + h <= buf.Length0
  }

  function Region(buf: array2<Pixel>, x: int, y: int, w: int, h: int): (img: Image)
    requires Fits(buf, x, y, w, h)
    reads buf
    ensures |img| == h && Sized(img, w)
    ensures forall j, i :: 0 <= j < h && 0 <= i < w ==> img[j][i] == buf[y + j, x + i]
  {
    seq(h, j requires 0 <= j < h reads buf => seq(w, i requires 0 <= i < w reads buf => buf[y + j, x + i]))
  }

  predicate Inside(x: int, y: int, w: int, h: int, px: int, py: int) {
    x <= px < x + w && y <= py < y + h
  }

  method HorizontalPass(buf: array2<Pixel>, scratch: array<Pixel>, x: int, y: int, w: int, h: int, r: nat)
    requires Fits(buf, x, y, w, h) && w <= scratch.Length && 1 <= r <= MAX_RADIUS
    modifies buf, scratch
    ensures Region(buf, x, y, w, h) == Rows(old(Region(buf, x, y, w, h)), w, r)
    ensures forall py, px :: 0 <= py < buf.Length0 && 0 <= px < buf.Length1 && !Inside(x, y, w, h, px, py)
              ==> buf[py, px] == old(buf[py, px])
  {
    hide BlurredLine;
    ghost var img := Region(buf, x, y, w, h);
    for py := 0 to h
      invariant forall qy, qx :: 0 <= qy < buf.Length0 && 0 <= qx < buf.Length1 ==>
                  buf[qy, qx] == if !Inside(x, y, w, h, qx, qy) then old(buf[qy, qx])
                                 else if qy < y + py then BlurredLine(img[qy - y], r)[qx - x] else img[qy - y][qx - x]
    {
      ghost var line := LineOf(buf, x, y + py, w, false);
      assert line == img[py];
      BlurLine(buf, scratch, x, y + py, w, false, r);
      ghost var line' := LineOf(buf, x, y + py, w, false);
      assert forall i :: 0 <= i < w ==> line'[i] == buf[y + py, x + i];
    }
    forall j | 0 <= j < h ensures Region(buf, x, y, w, h)[j] == BlurredLine(img[j], r) {}
  }

  method VerticalPass(buf: array2<Pixel>, scratch: array<Pixel>, x: int, y: int, w: int, h: int, r: nat)
    requires Fits(buf, x, y, w, h) && h <= scratch.Length && 1 <= r <= MAX_RADIUS
    modifies buf, scratch
    ensures Region(buf, x, y, w, h) == Columns(old(Region(buf, x, y, w, h)), w, r)
    ensures forall py, px :: 0 <= py < buf.Length0 && 0 <= px < buf.Length1 && !Inside(x, y, w, h, px, py)
              ==> buf[py, px] == old(buf[py, px])
  {
    hide BlurredLine;
    ghost var img := Region(buf, x, y, w, h);
    for px := 0 to w
      invariant forall qy, qx :: 0 <= qy < buf.Length0 && 0 <= qx < buf.Length1 ==>
                  buf[qy, qx] == if !Inside(x, y, w, h, qx, qy) then old(buf[qy, qx])
                                 else if qx < x + px then BlurredLine(Column(img, w, qx - x), r)[qy - y]
                                 else img[qy - y][qx - x]
    {
      ghost var line := LineOf(buf, x + px, y, h, true);
      assert line == Column(img, w, px);
      BlurLine(buf, scratch, x + px, y, h, true, r);
      ghost var line' := LineOf(buf, x + px, y, h, true);
      assert forall j :: 0 <= j < h ==> line'[j] == buf[y + j, x + px];
    }
    forall j | 0 <= j < h ensures Region(buf, x, y, w, h)[j] == Columns(img, w, r)[j] {}
  }

  /** The part of the rectangle the routine works on, or nothing. */
  function Target(x: int, y: int, w: int, h: int, width: UInt32, height: UInt32): ((int, int), (int, int)) {
    (Clip.Span(x, w, width), Clip.Span(y, h, height))
  }

  method BlurRectangle(buf: array2<Pixel>, scratch: array<Pixel>, width: UInt32, height: UInt32,
                       x: Int32, y: Int32, w: Int32, h: Int32, radius: Int32, passes: Int32)
    requires width <= FB_MAX_WIDTH && height <= FB_MAX_HEIGHT
    requires buf.Length0 == FB_MAX_HEIGHT && buf.Length1 == FB_MAX_WIDTH && scratch.Length == FB_MAX_WIDTH
    requires x + w < 0x8000_0000 && y + h < 0x8000_0000
    modifies buf, scratch
    ensures var (sx, sy) := Target(x, y, w, h, width, height);
            if radius > 0 && passes > 0 && w > 0 && h > 0 && sx.1 > 0 && sy.1 > 0 then
              && Fits(buf, sx.0, sy.0, sx.1, sy.1)
              && Region(buf, sx.0, sy.0, sx.1, sy.1) ==
                   Blurred(old(Region(buf, sx.0, sy.0, sx.1, sy.1)), sx.1,
                           if radius > MAX_RADIUS then MAX_RADIUS else radius, passes)
              && (forall py, px :: 0 <= py < buf.Length0 && 0 <= px < buf.Length1 ==>
                    !Inside(sx.0, sy.0, sx.1, sy.1, px, py) ==> buf[py, px] == old(buf[py, px]))
            else
              forall py, px :: 0 <= py < buf.Length0 && 0 <= px < buf.Length1 ==> buf[py, px] == old(buf[py, px])
  {
    if radius <= 0 || passes <= 0 || w <= 0 || h <= 0 { return; }
    var (left, bw) := Clip.Span(x, w, width);
    var (top, bh) := Clip.Span(y, h, height);
    if bw <= 0 || bh <= 0 { return; }
    var r: nat := if radius > MAX_RADIUS then MAX_RADIUS else radius;
    ghost var img := Region(buf, left, top, bw, bh);
    for pass := 0 to passes
      invariant Region(buf, left, top, bw, bh) == Blurred(img, bw, r, pass)
      invariant forall py, px :: 0 <= py < buf.Length0 && 0 <= px < buf.Length1 && !Inside(left, top, bw, bh, px, py)
                  ==> buf[py, px] == old(buf[py, px])
    {
      hide Rows, Columns, Region;
      HorizontalPass(buf, scratch, left, top, bw, bh, r);
      VerticalPass(buf, scratch, left, top, bw, bh, r);
    }
  }

  // ----- What a pass does to pixels ----------------------------------------------------------------

  /** Every channel of a blurred row pixel is the mean of the pixels around it, or one less. */
  lemma RowPixelIsMean(img: Image, w: nat, r: nat, j: nat, i: nat, c: Channel)
    requires Sized(img, w) && 1 <= r <= MAX_RADIUS && j < |img| && i < w
    ensures var mean := Total(Padded(img[j], r)[i..i + 2 * r + 1], c) / (2 * r + 1);
            Get(Rows(img, w, r)[j][i], c) == mean || Get(Rows(img, w, r)[j][i], c) == mean - 1
  {
    WindowIsSlice(img[j], c, i, r);
    assert Rows(img, w, r)[j][i] == BlurredPixel(img[j], i, r);
  }

  lemma ColumnPixelIsMean(img: Image, w: nat, r: nat, j: nat, i: nat, c: Channel)
    requires Sized(img, w) && 1 <= r <= MAX_RADIUS && j < |img| && i < w
    ensures var mean := Total(Padded(Column(img, w, i), r)[j..j + 2 * r + 1], c) / (2 * r + 1);
            Get(Columns(img, w, r)[j][i], c) == mean || Get(Columns(img, w, r)[j][i], c) == mean - 1
  {
    WindowIsSlice(Column(img, w, i), c, j, r);
    assert Columns(img, w, r)[j][i] == BlurredPixel(Column(img, w, i), j, r);
  }

  /** A round blurs the rows first and then the columns of what that gives. */
  lemma RoundPixelIsMean(img: Image, w: nat, r: nat, p: nat, j: nat, i: nat, c: Channel)
    requires Sized(img, w) && 1 <= r <= MAX_RADIUS && j < |img| && i < w
    ensures var rows := Rows(Blurred(img, w, r, p), w, r);
            var mean := Total(Padded(Column(rows, w, i), r)[j..j + 2 * r + 1], c) / (2 * r + 1);
            var v := Get(Blurred(img, w, r, p + 1)[j][i], c);
            v == mean || v == mean - 1
  {
    ColumnPixelIsMean(Rows(Blurred(img, w, r, p), w, r), w, r, j, i, c);
  }

  /** All pixels have level `v` in channel `c`. */
  ghost predicate Level(img: Image, w: nat, c: Channel, v: Byte)
    requires Sized(img, w)
  {
    forall j, i :: 0 <= j < |img| && 0 <= i < w ==> Get(img[j][i], c) == v
  }

  function Darker(v: Byte, n: nat): Byte {
    if v < n then 0 else v - n
  }

  lemma {:induction false} SumOfConstant(line: seq<Pixel>, c: Channel, v: Byte, at: int, count: nat)
    requires line != [] && forall i :: 0 <= i < |line| ==> Get(line[i], c) == v
    ensures Sum(line, c, at, count) == v * count
  {
    if count > 0 {
      SumOfConstant(line, c, v, at, count - 1);
      assert v * count == v * (count - 1) + v by { MulSucc(count - 1, v); }
      hide Get, ClampIndex;
    }
  }

  lemma LineOfConstant(line: seq<Pixel>, c: Channel, v: Byte, i: nat, r: nat)
    requires i < |line| && 1 <= r <= MAX_RADIUS && forall k :: 0 <= k < |line| ==> Get(line[k], c) == v
    ensures Get(BlurredPixel(line, i, r), c) == Darker(v, 1)
  {
    SumOfConstant(line, c, v, i - r, 2 * r + 1);
    ScaleOfConstant(v, r);
    assert Get(BlurredPixel(line, i, r), c) == BlurredChannel(line, c, i, r);
  }

  lemma PassOfConstant(img: Image, w: nat, r: nat, c: Channel, v: Byte)
    requires Sized(img, w) && 1 <= r <= MAX_RADIUS && Level(img, w, c, v)
    ensures Level(Rows(img, w, r), w, c, Darker(v, 1)) && Level(Columns(img, w, r), w, c, Darker(v, 1))
  {
    forall j, i | 0 <= j < |img| && 0 <= i < w
      ensures Get(Rows(img, w, r)[j][i], c) == Darker(v, 1) && Get(Columns(img, w, r)[j][i], c) == Darker(v, 1)
    {
      LineOfConstant(img[j], c, v, i, r);
      LineOfConstant(Column(img, w, i), c, v, j, r);
    }
  }

  /** A region of one colour stays of one colour and loses exactly two levels per round, down to black. */
  lemma {:induction false} ConstantRegionDarkens(img: Image, w: nat, r: nat, p: nat, c: Channel, v: Byte)
    requires Sized(img, w) && 1 <= r <= MAX_RADIUS && Level(img, w, c, v)
    ensures Level(Blurred(img, w, r, p), w, c, Darker(v, 2 * p))
  {
    if p > 0 {
      var before := Blurred(img, w, r, p - 1);
      ConstantRegionDarkens(img, w, r, p - 1, c, v);
      PassOfConstant(before, w, r, c, Darker(v, 2 * (p - 1)));
      PassOfConstant(Rows(before, w, r), w, r, c, Darker(v, 2 * (p - 1) + 1));
    }
  }
}
