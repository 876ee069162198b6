/**
  The sliding-window box blur of the software renderer (the BGRA path of blur_rect in
  src/flush.c): running sums updated in wrapping 32-bit arithmetic, and a multiplication by a
  16-bit reciprocal instead of a division.
 */
module Blur {
  import opened Machine
  import opened Pixels
  import opened Products

  const MAX_RADIUS := 12

  // ----- The naive blur of one line ----------------------------------------------------------

  function ClampIndex(i: int, n: int): (k: int)
    requires n > 0
    ensures 0 <= k < n
  {
    if i < 0 then 0 else if i >= n then n - 1 else i
  }

  /** The sum of channel `c` over `count` positions from `at`, each clamped to the line. */
  function Sum(line: seq<Pixel>, c: Channel, at: int, count: nat): (s: nat)
    requires line != []
    ensures s <= 255 * count
  {
    if count == 0 then 0
    else Sum(line, c, at, count - 1) + Get(line[ClampIndex(at + count - 1, |line|)], c)
  }

  /** The window of radius `r` around position `i`. */
  function WindowSum(line: seq<Pixel>, c: Channel, i: int, r: nat): (s: nat)
    requires line != []
    ensures s <= 255 * (2 * r + 1)
  {
    Sum(line, c, i - r, 2 * r + 1)
  }

  // ----- What a window holds -------------------------------------------------------------------

  /** The sum of channel `c` over some pixels. */
  function Total(s: seq<Pixel>, c: Channel): nat {
    if s == [] then 0 else Total(s[..|s| - 1], c) + Get(s[|s| - 1], c)
  }

  /** The line with its first and last pixel repeated `r` more times. */
  function Padded(line: seq<Pixel>, r: nat): (s: seq<Pixel>)
    requires line != []
    ensures |s| == |line| + 2 * r
  {
    seq(r, _ => line[0]) + line + seq(r, _ => line[|line| - 1])
  }

  lemma {:induction false} SumIsTotal(line: seq<Pixel>, c: Channel, at: int, count: nat, r: nat)
    requires line != [] && 0 <= at + r && at + count <= |line| + r
    ensures Sum(line, c, at, count) == Total(Padded(line, r)[at + r..at + r + count], c)
  {
    if count > 0 {
      SumIsTotal(line, c, at, count - 1, r);
      var s := Padded(line, r)[at + r..at + r + count];
      assert s[..count - 1] == Padded(line, r)[at + r..at + r + count - 1];
    }
  }

  /**
    The window around pixel `i` sums the pixels from `i - r` to `i + r`, those beyond an end
    being copies of the end.
   */
  lemma WindowIsSlice(line: seq<Pixel>, c: Channel, i: nat, r: nat)
    requires i < |line|
    ensures WindowSum(line, c, i, r) == Total(Padded(line, r)[i..i + 2 * r + 1], c)
    ensures r <= i < |line| - r ==> WindowSum(line, c, i, r) == Total(line[i - r..i + r + 1], c)
  {
    SumIsTotal(line, c, i - r, 2 * r + 1, r);
    if r <= i < |line| - r {
      assert Padded(line, r)[i..i + 2 * r + 1] == line[i - r..i + r + 1];
    }
  }

  /** `(sum * inv) >> 16`, the product in 32 bits. */
  function Shade(sum: nat, inv: nat): (m: nat) {
    sum * inv % TWO_32 / 0x1_0000
  }

  /** The sum scaled by the 16-bit reciprocal of the window's size. */
  function Scale(sum: nat, kern: nat): (m: nat)
    requires kern > 0
  {
    Shade(sum, 0x1_0000 / kern)
  }

  lemma ProductSplits(kern: nat, inv: nat, e: nat, q: nat, t: nat)
    requires kern * inv + e == 0x1_0000
    ensures (q * kern + t) * inv == q * 0x1_0000 - q * e + t * inv
  {
    assert (q * kern + t) * inv == (q * kern) * inv + t * inv;
    assert (q * kern) * inv == q * (kern * inv);
    assert q * (kern * inv) == q * (0x1_0000 - e);
  }

  lemma RemainderShare(t: nat, kern: nat, inv: nat)
    requires t < kern && kern * inv <= 0x1_0000 && inv > 0
    ensures 0 <= t * inv < 0x1_0000
  {
    MulLe(t, inv, kern - 1, inv);
    MulSucc(kern - 1, inv);
  }

  /** `product` is `q` whole steps of 2^16, less a small error, plus the remainder's share. */
  lemma RoundedDown(product: int, q: nat, error: nat, share: nat)
    requires product == q * 0x1_0000 - error + share && q <= 255 && error <= 255 * 24 && share < 0x1_0000
    requires product >= 0
    ensures product % TWO_32 / 0x1_0000 == q - (if share >= error then 0 else 1)
  {}

  /**
    The reciprocal is a shade too small: the result is the quotient or one less, by an exact
    rule, and the 32-bit product does not wrap.
   */
  lemma ScaleExactly(sum: nat, kern: nat)
    requires 3 <= kern <= 25 && sum <= 255 * kern
    ensures var q, t := sum / kern, sum % kern;
            && Scale(sum, kern) <= q <= 255
            && Scale(sum, kern) == q - (if t * (0x1_0000 / kern) >= q * (0x1_0000 % kern) then 0 else 1)
  {
    var q, t, inv, e := sum / kern, sum % kern, 0x1_0000 / kern, 0x1_0000 % kern;
    ReciprocalOf(kern);
    DivisionOf(sum, kern);
    hide Scale, Shade;
    QuotientIsByte(sum, kern, q);
    ProductSplits(kern, inv, e, q, t);
    MulLe(q, e, 255, 24);
    RemainderShare(t, kern, inv);
    RoundedDown(sum * inv, q, q * e, t * inv);
    ScaleOf(sum, kern);
  }

  lemma ScaleOf(sum: nat, kern: nat)
    requires kern > 0
    ensures Scale(sum, kern) == sum * (0x1_0000 / kern) % TWO_32 / 0x1_0000
  {}

  lemma ReciprocalOf(kern: nat)
    requires 3 <= kern <= 25
    ensures kern * (0x1_0000 / kern) + 0x1_0000 % kern == 0x1_0000 && 0x1_0000 / kern > 0 && 0x1_0000 % kern <= 24
  {}

  lemma ScaleIsMean(sum: nat, r: nat)
    requires 1 <= r <= MAX_RADIUS && sum <= 255 * (2 * r + 1)
    ensures var kern := 2 * r + 1; var mean := sum / kern;
            && Scale(sum, kern) <= 255
            && (Scale(sum, kern) == mean || Scale(sum, kern) == mean - 1)
  {
    hide Scale;
    ScaleExactly(sum, 2 * r + 1);
  }

  /** On a window of one colour the result is exactly one level darker, unless it is black. */
  lemma ScaleOfConstant(c: Byte, r: nat)
    requires 1 <= r <= MAX_RADIUS
    ensures Scale(c * (2 * r + 1), 2 * r + 1) == if c == 0 then 0 else c - 1
  {
    var kern := 2 * r + 1;
    var sum := c * kern;
    ScaleExactly(sum, kern);
    DivUnique(sum, kern, c, 0);
    OddDoesNotDivide(kern);
    if c > 0 { MulLe(1, 1, c, 0x1_0000 % kern); }
  }

  lemma OddDoesNotDivide(kern: nat)
    requires 3 <= kern <= 25 && kern % 2 == 1
    ensures 0x1_0000 % kern != 0
  {
    assert kern == 3 || kern == 5 || kern == 7 || kern == 9 || kern == 11 || kern == 13
        || kern == 15 || kern == 17 || kern == 19 || kern == 21 || kern == 23 || kern == 25;
  }

  function BlurredChannel(line: seq<Pixel>, c: Channel, i: int, r: nat): (b: Byte)
    requires line != [] && 1 <= r <= MAX_RADIUS
    ensures var mean := WindowSum(line, c, i, r) / (2 * r + 1); b == mean || b == mean - 1
  {
    ScaleIsMean(WindowSum(line, c, i, r), r);
    Scale(WindowSum(line, c, i, r), 2 * r + 1)
  }

  function BlurredPixel(line: seq<Pixel>, i: int, r: nat): Pixel
    requires line != [] && 1 <= r <= MAX_RADIUS
  {
    Pack(BlurredChannel(line, Red, i, r), BlurredChannel(line, Green, i, r), BlurredChannel(line, Blue, i, r))
  }

  function BlurredLine(line: seq<Pixel>, r: nat): (out: seq<Pixel>)
    requires 1 <= r <= MAX_RADIUS
    ensures |out| == |line|
  {
    seq(|line|, i requires 0 <= i < |line| => BlurredPixel(line, i, r))
  }

  // ----- Sliding -------------------------------------------------------------------------------

  lemma {:induction false} SumSlides(line: seq<Pixel>, c: Channel, at: int, count: nat)
    requires line != []
    ensures Sum(line, c, at + 1, count) + Get(line[ClampIndex(at, |line|)], c)
         == Sum(line, c, at, count) + Get(line[ClampIndex(at + count, |line|)], c)
  {
    if count > 0 { SumSlides(line, c, at, count - 1); }
  }

  /** `sum += in - out`, both operations modulo 2^32. */
  function Slide(sum: UInt32, incoming: Byte, outgoing: Byte): UInt32 {
    (sum + (incoming - outgoing) % TWO_32) % TWO_32
  }

  lemma SlideIsExact(sum: UInt32, incoming: Byte, outgoing: Byte)
    requires 0 <= sum + incoming - outgoing < TWO_32
    ensures Slide(sum, incoming, outgoing) == sum + incoming - outgoing
  {}

  lemma WindowSlides(line: seq<Pixel>, c: Channel, i: nat, r: nat)
    requires line != [] && r <= MAX_RADIUS
    ensures WindowSum(line, c, i, r) < TWO_32
    ensures Slide(WindowSum(line, c, i, r),
                  Get(line[ClampIndex(i + r + 1, |line|)], c), Get(line[ClampIndex(i - r, |line|)], c))
         == WindowSum(line, c, i + 1, r)
  {
    var incoming, outgoing := Get(line[ClampIndex(i + r + 1, |line|)], c), Get(line[ClampIndex(i - r, |line|)], c);
    SumSlides(line, c, i - r, 2 * r + 1);
    assert i - r + (2 * r + 1) == i + r + 1 && (i + 1) - r == (i - r) + 1;
    SlideIsExact(WindowSum(line, c, i, r), incoming, outgoing);
  }

  // ----- One line of the buffer ----------------------------------------------------------------

  /** A row (`vertical` false) or column of `n` pixels starting at column `x` of row `y`. */
  predicate InBuffer(buf: array2<Pixel>, x: int, y: int, n: int, vertical: bool) {
    && 0 <= x && 0 <= y && 0 < n
    && (if vertical then x < buf.Length1 && y + n <= buf.Length0 else y < buf.Length0 && x + n <= buf.Length1)
  }

  function At(buf: array2<Pixel>, x: int, y: int, vertical: bool, i: int): Pixel
    requires if vertical then 0 <= x < buf.Length1 && 0 <= y + i < buf.Length0
                         else 0 <= y < buf.Length0 && 0 <= x + i < buf.Length1
    reads buf
  {
    if vertical then buf[y + i, x] else buf[y, x + i]
  }

  function LineOf(buf: array2<Pixel>, x: int, y: int, n: int, vertical: bool): (line: seq<Pixel>)
    requires InBuffer(buf, x, y, n, vertical)
    reads buf
    ensures |line| == n
  {
    seq(n, i requires 0 <= i < n reads buf => At(buf, x, y, vertical, i))
  }

  predicate OnLine(x: int, y: int, n: int, vertical: bool, px: int, py: int) {
    if vertical then px == x && y <= py < y + n else py == y && x <= px < x + n
  }

  lemma ShadeFits(line: seq<Pixel>, c: Channel, i: nat, r: nat)
    requires i < |line| && 1 <= r <= MAX_RADIUS
    ensures Shade(WindowSum(line, c, i, r), 0x1_0000 / (2 * r + 1)) == BlurredChannel(line, c, i, r)
  {
    hide WindowSum;
    ScaleIsMean(WindowSum(line, c, i, r), r);
  }

  /** One output pixel from the three running sums. */
  method MeanPixel(sr: UInt32, sg: UInt32, sb: UInt32, inv: nat, ghost line: seq<Pixel>, ghost i: nat, ghost r: nat)
    returns (p: Pixel)
    requires i < |line| && 1 <= r <= MAX_RADIUS && inv == 0x1_0000 / (2 * r + 1)
    requires sr == WindowSum(line, Red, i, r) && sg == WindowSum(line, Green, i, r) && sb == WindowSum(line, Blue, i, r)
    ensures p == BlurredPixel(line, i, r)
  {
    hide BlurredChannel, Pack, WindowSum, Shade;
    ShadeFits(line, Red, i, r);
    ShadeFits(line, Green, i, r);
    ShadeFits(line, Blue, i, r);
    p := Pack(Shade(sr, inv), Shade(sg, inv), Shade(sb, inv));
  }

  method StoreLine(buf: array2<Pixel>, scratch: array<Pixel>, x: int, y: int, n: int, vertical: bool)
    requires InBuffer(buf, x, y, n, vertical) && n <= scratch.Length
    modifies buf
    ensures LineOf(buf, x, y, n, vertical) == scratch[..n]
    ensures forall py, px :: 0 <= py < buf.Length0 && 0 <= px < buf.Length1 && !OnLine(x, y, n, vertical, px, py)
              ==> buf[py, px] == old(buf[py, px])
  {
    for i := 0 to n
      invariant forall j :: 0 <= j < i ==> At(buf, x, y, vertical, j) == scratch[j]
      invariant forall py, px :: 0 <= py < buf.Length0 && 0 <= px < buf.Length1 && !OnLine(x, y, n, vertical, px, py)
                  ==> buf[py, px] == old(buf[py, px])
    {
      if vertical { buf[y + i, x] := scratch[i]; } else { buf[y, x + i] := scratch[i]; }
    }
  }

  /** The window of the first pixel. */
  method PrimeWindow(buf: array2<Pixel>, x: int, y: int, n: int, vertical: bool, radius: nat)
    returns (sr: UInt32, sg: UInt32, sb: UInt32)
    requires InBuffer(buf, x, y, n, vertical) && 1 <= radius <= MAX_RADIUS
    ensures sr == WindowSum(LineOf(buf, x, y, n, vertical), Red, 0, radius)
    ensures sg == WindowSum(LineOf(buf, x, y, n, vertical), Green, 0, radius)
    ensures sb == WindowSum(LineOf(buf, x, y, n, vertical), Blue, 0, radius)
  {
    ghost var line := LineOf(buf, x, y, n, vertical);
    sr, sg, sb := 0, 0, 0;
    for k: int := 0 - radius to radius + 1
      invariant sr == Sum(line, Red, 0 - radius, k + radius)
      invariant sg == Sum(line, Green, 0 - radius, k + radius)
      invariant sb == Sum(line, Blue, 0 - radius, k + radius)
    {
      var pix := At(buf, x, y, vertical, ClampIndex(k, n));
      assert pix == line[ClampIndex(k, n)];
      sr, sg, sb := sr + Get(pix, Red), sg + Get(pix, Green), sb + Get(pix, Blue);
    }
  }

  /** The window moves one pixel on: one value leaves and one enters. */
  method NextWindow(buf: array2<Pixel>, x: int, y: int, n: int, vertical: bool, radius: nat, i: nat,
                    r0: UInt32, g0: UInt32, b0: UInt32)
    returns (sr: UInt32, sg: UInt32, sb: UInt32)
    requires InBuffer(buf, x, y, n, vertical) && 1 <= radius <= MAX_RADIUS && i < n
    requires r0 == WindowSum(LineOf(buf, x, y, n, vertical), Red, i, radius)
    requires g0 == WindowSum(LineOf(buf, x, y, n, vertical), Green, i, radius)
    requires b0 == WindowSum(LineOf(buf, x, y, n, vertical), Blue, i, radius)
    ensures sr == WindowSum(LineOf(buf, x, y, n, vertical), Red, i + 1, radius)
    ensures sg == WindowSum(LineOf(buf, x, y, n, vertical), Green, i + 1, radius)
    ensures sb == WindowSum(LineOf(buf, x, y, n, vertical), Blue, i + 1, radius)
  {
    hide WindowSum, Slide, Get;
    ghost var line := LineOf(buf, x, y, n, vertical);
    var pout := At(buf, x, y, vertical, ClampIndex(i - radius, n));
    var pin := At(buf, x, y, vertical, ClampIndex(i + radius + 1, n));
    assert pout == line[ClampIndex(i - radius, n)] && pin == line[ClampIndex(i + radius + 1, n)];
    WindowSlides(line, Red, i, radius);
    WindowSlides(line, Green, i, radius);
    WindowSlides(line, Blue, i, radius);
    sr := Slide(r0, Get(pin, Red), Get(pout, Red));
    sg := Slide(g0, Get(pin, Green), Get(pout, Green));
    sb := Slide(b0, Get(pin, Blue), Get(pout, Blue));
  }

  /** The horizontal and the vertical loop of blur_rect, which differ only in the stride. */
  method BlurLine(buf: array2<Pixel>, scratch: array<Pixel>, x: int, y: int, n: int, vertical: bool, radius: nat)
    requires InBuffer(buf, x, y, n, vertical) && n <= scratch.Length && 1 <= radius <= MAX_RADIUS
    modifies buf, scratch
    ensures LineOf(buf, x, y, n, vertical) == BlurredLine(old(LineOf(buf, x, y, n, vertical)), radius)
    ensures forall py, px :: 0 <= py < buf.Length0 && 0 <= px < buf.Length1 && !OnLine(x, y, n, vertical, px, py)
              ==> buf[py, px] == old(buf[py, px])
  {
    hide BlurredPixel, WindowSum;
    ghost var line := LineOf(buf, x, y, n, vertical);
    var kern := radius * 2 + 1;
    var inv := 0x1_0000 / kern;
    var sr, sg, sb := PrimeWindow(buf, x, y, n, vertical, radius);
    for i := 0 to n
      invariant sr == WindowSum(line, Red, i, radius)
      invariant sg == WindowSum(line, Green, i, radius)
      invariant sb == WindowSum(line, Blue, i, radius)
      invariant forall j :: 0 <= j < i ==> scratch[j] == BlurredPixel(line, j, radius)
      modifies scratch
    {
      scratch[i] := MeanPixel(sr, sg, sb, inv, line, i, radius);
      sr, sg, sb := NextWindow(buf, x, y, n, vertical, radius, i, sr, sg, sb);
    }
    StoreLine(buf, scratch, x, y, n, vertical);
  }
}
