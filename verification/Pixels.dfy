/** 32-bit pixels laid out as 0x00RRGGBB, read and written channel by channel. */
module Pixels {
  import opened Machine
  import opened Products

  type Pixel = UInt32

  const FB_MAX_WIDTH := 1920
  const FB_MAX_HEIGHT := 1080

  /** A rectangle of pixels, row by row. */
  type Image = seq<seq<Pixel>>

  /** Position (lx, ly) lies in a box of `w` by `h` pixels. */
  predicate InBox(lx: int, ly: int, w: int, h: int) {
    0 <= lx < w && 0 <= ly < h
  }

  datatype Channel = Red | Green | Blue

  /** `(p >> 16) & 0xFF`, `(p >> 8) & 0xFF` and `p & 0xFF`. */
  function Get(p: Pixel, c: Channel): (b: Byte) {
    match c
    case Red => p / 0x1_0000 % 0x100
    case Green => p / 0x100 % 0x100
    case Blue => p % 0x100
  }

  /** `(r << 16) | (g << 8) | b` for channels that fit their byte. */
  function Pack(r: Byte, g: Byte, b: Byte): (p: Pixel)
    ensures Get(p, Red) == r && Get(p, Green) == g && Get(p, Blue) == b
  {
    var p := r * 0x1_0000 + g * 0x100 + b;
    assert p / 0x1_0000 == r && p / 0x100 == r * 0x100 + g;
    p
  }

  /** `p & 0x00FFFFFF`. */
  function Opaque(p: Pixel): Pixel {
    p % 0x100_0000
  }

  lemma OpaqueIsPacked(p: Pixel)
    ensures Pack(Get(p, Red), Get(p, Green), Get(p, Blue)) == Opaque(p)
  {
    hide Pack;
    var q := p / 0x100;
    var a := q / 0x100 / 0x100;
    var low := q / 0x100 % 0x100 * 0x1_0000 + q % 0x100 * 0x100 + p % 0x100;
    assert q / 0x100 == p / 0x1_0000;
    assert p == a * 0x100_0000 + low;
    assert 0 <= low < 0x100_0000;
    DivUnique(p, 0x100_0000, a, low);
    PackIs(Get(p, Red), Get(p, Green), Get(p, Blue));
  }

  lemma PackIs(r: Byte, g: Byte, b: Byte)
    ensures Pack(r, g, b) == r * 0x1_0000 + g * 0x100 + b
  {}
}

/** The clipping of a span of rows or columns that blur_rect and rdui_fill_alpha share. */
module Clip {
  import opened Machine

  /**
    A span starting at `pos` with `len` elements, cut to `0..limit`, as the C code does it:
    the right edge is compared with the limit as an unsigned number.
   */
  function Span(pos: int, len: int, limit: UInt32): (int, int) {
    var (p, l) := if pos < 0 then (0, len + pos) else (pos, len);
    (p, if Unsigned(p + l) > limit then limit - p else l)
  }

  predicate Covers(span: (int, int), i: int) {
    span.0 <= i < span.0 + span.1
  }

  /**
    The cut span is the part of the span on the surface exactly when the span does not end
    left of position 0; one that does is turned into the whole width of the surface.
   */
  lemma SpanExactly(pos: Int32, len: Int32, limit: UInt32)
    requires len > 0 && limit < 0x8000_0000 && pos + len < 0x8000_0000
    ensures (forall i :: Covers(Span(pos, len, limit), i) <==> 0 <= i < limit && pos <= i < pos + len)
            <==> pos + len >= 0 || limit == 0
  {
    if pos + len < 0 && limit > 0 {
      assert Covers(Span(pos, len, limit), 0);
    }
  }
}
