/**
  Filling in the software renderer (src/flush.c) with the backbuffer in use: rows clipped to
  the scissor and to the screen, rectangles of rows, and single pixels.
 */
module Canvas {
  import opened Machine
  import opened Pixels
  import opened FlushBlend
  import opened Scissor

  class Canvas {
    const width: UInt32
    const height: UInt32
    const mode: Mode
    const backbuffer: array2<Pixel>
    const entries: array<Rect>
    var depth: nat

    predicate Valid()
      reads this`depth
    {
      && width <= FB_MAX_WIDTH && height <= FB_MAX_HEIGHT
      && backbuffer.Length0 == FB_MAX_HEIGHT && backbuffer.Length1 == FB_MAX_WIDTH
      && entries.Length == MAX_DEPTH && depth <= MAX_DEPTH
    }

    function Stack(): seq<Rect>
      requires Valid()
      reads this, entries
    {
      entries[..depth]
    }

    constructor (width: UInt32, height: UInt32, mode: Mode)
      requires width <= FB_MAX_WIDTH && height <= FB_MAX_HEIGHT
      ensures Valid() && Stack() == [] && fresh(backbuffer) && fresh(entries)
      ensures this.width == width && this.height == height && this.mode == mode
    {
      this.width, this.height, this.mode := width, height, mode;
      backbuffer := new Pixel[FB_MAX_HEIGHT, FB_MAX_WIDTH]((_, _) => 0);
      entries := new Rect[MAX_DEPTH](_ => Rect(0, 0, 0, 0));
      depth := 0;
    }

    method PushScissor(r: Rect)
      requires Valid()
      modifies this`depth, entries
      ensures Valid() && Stack() == Pushed(old(Stack()), r)
    {
      if depth < MAX_DEPTH {
        if depth > 0 {
          entries[depth] := Intersect(entries[depth - 1], r);
        } else {
          entries[depth] := r;
        }
        depth := depth + 1;
      }
    }

    method PopScissor()
      requires Valid()
      modifies this`depth
      ensures Valid() && Stack() == Popped(old(Stack()))
    {
      if depth > 0 { depth := depth - 1; }
    }

    /** A pixel that drawing may change: on the screen and inside the scissor. */
    predicate Visible(px: int, py: int)
      requires Valid()
      reads this, entries
    {
      0 <= px < width && 0 <= py < height && Passes(Stack(), px, py)
    }

    /** fb_blend_pixel. */
    method BlendPixel(x: int, y: int, color: Pixel, alpha: Byte)
      requires Valid()
      modifies backbuffer
      ensures forall py, px :: 0 <= py < FB_MAX_HEIGHT && 0 <= px < FB_MAX_WIDTH ==>
                backbuffer[py, px] == if px == x && py == y && Visible(px, py)
                                      then Drawn(mode, old(backbuffer[py, px]), color, alpha)
                                      else old(backbuffer[py, px])
      ensures 0 <= y < FB_MAX_HEIGHT && 0 <= x < FB_MAX_WIDTH && Visible(x, y) ==>
                Blended(mode, backbuffer[y, x], old(backbuffer[y, x]), color, alpha)
    {
      AlwaysBlended(mode, color, alpha);
      hide Blended, FastBlend, GenericBlend;
      if alpha == 0 { return; }
      if x < 0 || y < 0 || x >= width || y >= height { return; }
      if depth > 0 && !InRect(entries[depth - 1], x, y) { return; }
      backbuffer[y, x] := if alpha == 255 then color else BlendColor(mode, backbuffer[y, x], color, alpha);
    }

    /** The right edge of the active scissor is an `int`. */
    predicate ScissorInRange()
      requires Valid()
      reads this, entries
    {
      depth > 0 ==> -0x8000_0000 <= entries[depth - 1].x + entries[depth - 1].w < 0x8000_0000
    }

    // ----- Rows ------------------------------------------------------------------------------------

    /** The right edge of a row after the scissor, before the screen. */
    function RightEdge(x: int, w: int): int
      requires Valid()
      reads this, entries
    {
      if depth > 0 then Min(x + w, entries[depth - 1].x + entries[depth - 1].w) else x + w
    }

    function LeftEdge(x: int): int
      requires Valid()
      reads this, entries
    {
      Max(0, if depth > 0 then Max(x, entries[depth - 1].x) else x)
    }

    /** The columns the row routine touches, with its unsigned comparison against the width. */
    predicate Touched(x: int, w: int, px: int)
      requires Valid()
      reads this, entries
    {
      var x1 := RightEdge(x, w);
      LeftEdge(x) <= px < if Unsigned(x1) > width then width else x1
    }

    predicate RowShown(y: int)
      requires Valid()
      reads this, entries
    {
      0 <= y < height && (depth > 0 ==> entries[depth - 1].y <= y < entries[depth - 1].y + entries[depth - 1].h)
    }

    /** The row is empty or its right edge, after the scissor, is not left of column 0. */
    predicate RowReaches(x: int, w: int)
      requires Valid()
      reads this, entries
    {
      w <= 0 || RightEdge(x, w) >= 0
    }

    /**
      On a row that shows, the columns touched are the visible ones of the span if and only if
      the right edge is not left of column 0, or the left edge is right of the screen.
     */
    lemma TouchedExactly(x: Int32, y: int, w: Int32)
      requires Valid() && RowShown(y) && w > 0
      requires ScissorInRange() && -0x8000_0000 <= x + w < 0x8000_0000
      ensures (forall px :: Touched(x, w, px) <==> Visible(px, y) && x <= px < x + w)
              <==> RightEdge(x, w) >= 0 || LeftEdge(x) >= width
    {
      if RightEdge(x, w) < 0 && LeftEdge(x) < width {
        assert Touched(x, w, LeftEdge(x));
      }
    }

    // ----- Rectangles ------------------------------------------------------------------------------

    /** The pixels draw_rect_alpha touches, row by row. */
    predicate RectTouched(r: Rect, px: int, py: int)
      requires Valid()
      reads this, entries
    {
      r.w > 0 && r.y <= py < r.y + r.h && RowShown(py) && Touched(r.x, r.w, px)
    }

    /** Some row of the rectangle shows. */
    predicate AnyRowShown(r: Rect)
      requires Valid()
      reads this, entries
    {
      var s := if depth > 0 then entries[depth - 1] else Rect(0, 0, width, height);
      Max(Max(0, s.y), r.y) < Min(Min(height, s.y + s.h), r.y + r.h)
    }

    /** The rectangle is empty, does not end left of column 0 after the scissor, or is out of sight. */
    predicate RectReaches(r: Rect)
      requires Valid()
      reads this, entries
    {
      r.w <= 0 || r.h <= 0 || RightEdge(r.x, r.w) >= 0 || LeftEdge(r.x) >= width || !AnyRowShown(r)
    }

    /** A rectangle is drawn where it is visible, and nowhere else if and only if it reaches. */
    lemma RectExactly(r: Rect)
      requires Valid() && ScissorInRange() && -0x8000_0000 <= r.x + r.w < 0x8000_0000
      ensures forall px, py :: InRect(r, px, py) && Visible(px, py) ==> RectTouched(r, px, py)
      ensures (forall px, py :: RectTouched(r, px, py) ==> InRect(r, px, py) && Visible(px, py)) <==> RectReaches(r)
    {
      if !RectReaches(r) {
        var s := if depth > 0 then entries[depth - 1] else Rect(0, 0, width, height);
        assert RectTouched(r, LeftEdge(r.x), Max(Max(0, s.y), r.y));
      }
    }

    static lemma NothingDrawn(mode: Mode, color: Pixel)
      ensures forall dst :: Drawn(mode, dst, color, 0) == dst
    {}

    /** The three pixel loops of fill_row_alpha. */
    method FillSpan(y: int, x0: int, x1: int, color: Pixel, alpha: Byte)
      requires Valid() && 0 <= y < height && 0 <= x0 <= x1 <= width && alpha != 0
      modifies backbuffer
      ensures forall py, px :: 0 <= py < FB_MAX_HEIGHT && 0 <= px < FB_MAX_WIDTH ==>
                backbuffer[py, px] == if py == y && x0 <= px < x1
                                      then Drawn(mode, old(backbuffer[py, px]), color, alpha)
                                      else old(backbuffer[py, px])
    {
      hide FastBlend, GenericBlend;
      if alpha == 255 {
        for i := x0 to x1
          invariant forall py, px :: 0 <= py < FB_MAX_HEIGHT && 0 <= px < FB_MAX_WIDTH ==>
                      backbuffer[py, px] == if py == y && x0 <= px < i then color else old(backbuffer[py, px])
        {
          backbuffer[y, i] := color;
        }
      } else {
        for i := x0 to x1
          invariant forall py, px :: 0 <= py < FB_MAX_HEIGHT && 0 <= px < FB_MAX_WIDTH ==>
                      backbuffer[py, px] == if py == y && x0 <= px < i
                                            then BlendColor(mode, old(backbuffer[py, px]), color, alpha)
                                            else old(backbuffer[py, px])
        {
          backbuffer[y, i] := match mode
            case Fast => FastBlend(backbuffer[y, i], color, alpha)
            case Generic(l) => BlendColor(mode, backbuffer[y, i], color, alpha);
        }
      }
    }

    lemma RowIsVisible(x: Int32, y: Int32, w: Int32)
      requires Valid() && ScissorInRange() && -0x8000_0000 <= x + w < 0x8000_0000
      ensures RowReaches(x, w) ==>
                forall px :: w > 0 && RowShown(y) && Touched(x, w, px) <==> x <= px < x + w && Visible(px, y)
    {}

    /** The horizontal clipping of fill_row_alpha. */
    method ClipRow(x: Int32, w: Int32) returns (x0: int, x1: int)
      requires Valid()
      ensures 0 <= x0 && x1 <= width && forall px :: Touched(x, w, px) <==> x0 <= px < x1
    {
      x0, x1 := x, x + w;
      if depth > 0 {
        var r := entries[depth - 1];
        if x0 < r.x { x0 := r.x; }
        if x1 > r.x + r.w { x1 := r.x + r.w; }
      }
      if x0 < 0 { x0 := 0; }
      if Unsigned(x1) > width { x1 := width; }
    }

    /** fill_row_alpha. */
    method FillRow(x: Int32, y: Int32, w: Int32, color: Pixel, alpha: Byte)
      requires Valid() && ScissorInRange() && -0x8000_0000 <= x + w < 0x8000_0000
      modifies backbuffer
      ensures forall py, px :: 0 <= py < FB_MAX_HEIGHT && 0 <= px < FB_MAX_WIDTH ==>
                backbuffer[py, px] == if w > 0 && py == y && RowShown(y) && Touched(x, w, px)
                                      then Drawn(mode, old(backbuffer[py, px]), color, alpha)
                                      else old(backbuffer[py, px])
      ensures RowReaches(x, w) ==>
                forall py, px :: 0 <= py < FB_MAX_HEIGHT && 0 <= px < FB_MAX_WIDTH ==>
                  backbuffer[py, px] == if py == y && x <= px < x + w && Visible(px, py)
                                        then Drawn(mode, old(backbuffer[py, px]), color, alpha)
                                        else old(backbuffer[py, px])
      ensures forall px :: 0 <= y < FB_MAX_HEIGHT && 0 <= px < FB_MAX_WIDTH && w > 0 && RowShown(y) && Touched(x, w, px)
                ==> Blended(mode, backbuffer[y, px], old(backbuffer[y, px]), color, alpha)
    {
      hide Drawn, Visible, RowReaches, Touched, Blended;
      RowIsVisible(x, y, w);
      AlwaysBlended(mode, color, alpha);
      NothingDrawn(mode, color);
      if alpha == 0 || w <= 0 { return; }
      if y < 0 || y >= height { return; }
      if depth > 0 && (y < entries[depth - 1].y || y >= entries[depth - 1].y + entries[depth - 1].h) { return; }
      var x0, x1 := ClipRow(x, w);
      if x0 >= x1 { return; }
      FillSpan(y, x0, x1, color, alpha);
    }

    /** draw_rect_alpha. */
    method DrawRect(x: Int32, y: Int32, w: Int32, h: Int32, color: Pixel, alpha: Byte)
      requires Valid() && ScissorInRange() && -0x8000_0000 <= x + w < 0x8000_0000 && y + h < 0x8000_0000
      modifies backbuffer
      ensures forall py, px :: 0 <= py < FB_MAX_HEIGHT && 0 <= px < FB_MAX_WIDTH ==>
                backbuffer[py, px] == if RectTouched(Rect(x, y, w, h), px, py)
                                      then Drawn(mode, old(backbuffer[py, px]), color, alpha)
                                      else old(backbuffer[py, px])
    {
      hide Drawn, RightEdge, Touched, RowShown;
      NothingDrawn(mode, color);
      if w <= 0 || h <= 0 || alpha == 0 { return; }
      for iy := 0 to h
        invariant forall py, px :: 0 <= py < FB_MAX_HEIGHT && 0 <= px < FB_MAX_WIDTH ==>
                    backbuffer[py, px] == if RectTouched(Rect(x, y, w, iy), px, py)
                                          then Drawn(mode, old(backbuffer[py, px]), color, alpha)
                                          else old(backbuffer[py, px])
      {
        FillRow(x, y + iy, w, color, alpha);
      }
    }

    // ----- Runs ------------------------------------------------------------------------------------

    /** The renderer's calls on the scissor. */
    method RunScissor(cmds: seq<Command>)
      requires Valid() && depth == 0
      modifies this`depth, entries
      ensures Valid() && Stack() == Entries(cmds)
    {
      for i := 0 to |cmds|
        invariant Valid() && Stack() == Entries(cmds[..i])
      {
        assert Init(cmds[..i + 1]) == cmds[..i];
        match cmds[i] {
          case Push(r) => PushScissor(r);
          case Pop => PopScissor();
        }
      }
      assert cmds[..|cmds|] == cmds;
    }

    /**
      After any pushes and pops nested at most eight deep since nothing was open, a row fill
      blends exactly the pixels of the row that lie in every open rectangle and on the screen.
     */
    method FillRowAfter(cmds: seq<Command>, x: Int32, y: Int32, w: Int32, color: Pixel, alpha: Byte)
      requires Valid() && depth == 0 && -0x8000_0000 <= x + w < 0x8000_0000 && Deepest(cmds) <= MAX_DEPTH
      requires Entries(cmds) != [] ==> -0x8000_0000 <= Top(Entries(cmds)).x + Top(Entries(cmds)).w < 0x8000_0000
      modifies this`depth, entries, backbuffer
      ensures Valid() && Stack() == Entries(cmds)
      ensures RowReaches(x, w) ==>
                forall py, px :: 0 <= py < FB_MAX_HEIGHT && 0 <= px < FB_MAX_WIDTH ==>
                  backbuffer[py, px] ==
                  if px < width && py < height && InRect(Rect(x, y, w, 1), px, py) && InAll(cmds, Open(cmds), px, py)
                  then Drawn(mode, old(backbuffer[py, px]), color, alpha) else old(backbuffer[py, px])
    {
      hide Drawn, Entries, InAll, Touched, RightEdge, Deepest;
      RunScissor(cmds);
      FillRow(x, y, w, color, alpha);
      forall px, py ensures Passes(Entries(cmds), px, py) <==> InAll(cmds, Open(cmds), px, py) {
        PassesIffInEveryOpen(cmds, px, py);
      }
    }
  }
}
