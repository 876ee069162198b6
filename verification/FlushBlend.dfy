/**
  Alpha blending in the software renderer (src/flush.c): the packed blend that handles red and
  blue in one multiplication, and the blend for arbitrary channel layouts.
 */
module FlushBlend {
  import opened Machine
  import opened Pixels
  import opened Products

  // ----- The packed blend ----------------------------------------------------------------------

  /** `p & 0x00FF00FF` and `p & 0x0000FF00`. */
  function RedBlue(p: UInt32): UInt32 {
    Get(p, Red) * 0x1_0000 + Get(p, Blue)
  }

  function GreenOnly(p: UInt32): UInt32 {
    Get(p, Green) * 0x100
  }

  /** fast_blend_bgra, in wrapping 32-bit arithmetic. */
  function FastBlend(dst: Pixel, src: Pixel, a: Byte): Pixel {
    var inv := 256 - a;
    var rb := (RedBlue(src) * a + RedBlue(dst) * inv) % TWO_32 / 0x100;
    var g := (GreenOnly(src) * a + GreenOnly(dst) * inv) % TWO_32 / 0x100;
    // the two masked halves have no bit in common, so `|` is a sum
    RedBlue(rb) + GreenOnly(g)
  }

  function Lerp256(s: Byte, d: Byte, a: Byte): (v: int) {
    s * a + d * (256 - a)
  }

  /** Two lanes in one word: the low lane stays below 2^16, so nothing carries. */
  lemma LanesStayApart(hi: int, lo: int)
    requires 0 <= hi <= 255 * 256 && 0 <= lo <= 255 * 256
    ensures var word := hi * 0x1_0000 + lo;
            && word < TWO_32
            && Get(word / 0x100, Red) == hi / 0x100
            && Get(word / 0x100, Blue) == lo / 0x100
  {
    var word := hi * 0x1_0000 + lo;
    assert word / 0x100 == hi * 0x100 + lo / 0x100;
    assert word / 0x100 / 0x1_0000 == hi / 0x100;
  }

  lemma GreenLane(g: int)
    requires 0 <= g <= 255 * 256
    ensures (g * 0x100) / 0x100 == g && Get(g, Green) == g / 0x100
  {}

  lemma TwoLanes(sh: Byte, sl: Byte, dh: Byte, dl: Byte, a: Byte)
    ensures (sh * 0x1_0000 + sl) * a + (dh * 0x1_0000 + dl) * (256 - a)
         == Lerp256(sh, dh, a) * 0x1_0000 + Lerp256(sl, dl, a)
    ensures 0 <= Lerp256(sh, dh, a) <= 255 * 256 && 0 <= Lerp256(sl, dl, a) <= 255 * 256
  {
    WeightedBetween(sh, dh, a, 256);
    WeightedBetween(sl, dl, a, 256);
    assert (sh * 0x1_0000 + sl) * a == (sh * a) * 0x1_0000 + sl * a;
    assert (dh * 0x1_0000 + dl) * (256 - a) == (dh * (256 - a)) * 0x1_0000 + dl * (256 - a);
  }

  lemma RedBlueHalf(dst: Pixel, src: Pixel, a: Byte)
    ensures var rb := (RedBlue(src) * a + RedBlue(dst) * (256 - a)) % TWO_32 / 0x100;
            && Get(rb, Red) == Lerp256(Get(src, Red), Get(dst, Red), a) / 256
            && Get(rb, Blue) == Lerp256(Get(src, Blue), Get(dst, Blue), a) / 256
  {
    hide Get, Lerp256;
    RedBlueWord(Get(src, Red), Get(src, Blue), Get(dst, Red), Get(dst, Blue), a);
  }

  lemma RedBlueWord(sh: Byte, sl: Byte, dh: Byte, dl: Byte, a: Byte)
    ensures var word := (sh * 0x1_0000 + sl) * a + (dh * 0x1_0000 + dl) * (256 - a);
            && word % TWO_32 == word
            && Get(word / 0x100, Red) == Lerp256(sh, dh, a) / 256
            && Get(word / 0x100, Blue) == Lerp256(sl, dl, a) / 256
  {
    hide Get, Lerp256;
    TwoLanes(sh, sl, dh, dl, a);
    LanesStayApart(Lerp256(sh, dh, a), Lerp256(sl, dl, a));
  }

  lemma GreenHalf(dst: Pixel, src: Pixel, a: Byte)
    ensures var g := (GreenOnly(src) * a + GreenOnly(dst) * (256 - a)) % TWO_32 / 0x100;
            Get(g, Green) == Lerp256(Get(src, Green), Get(dst, Green), a) / 256
  {
    hide Get, Lerp256;
    OneLane(Get(src, Green), Get(dst, Green), a);
    GreenLane(Lerp256(Get(src, Green), Get(dst, Green), a));
  }

  lemma OneLane(s: Byte, d: Byte, a: Byte)
    ensures (s * 0x100) * a + (d * 0x100) * (256 - a) == Lerp256(s, d, a) * 0x100
    ensures 0 <= Lerp256(s, d, a) <= 255 * 256
  {
    WeightedBetween(s, d, a, 256);
    assert (s * 0x100) * a == (s * a) * 0x100 && (d * 0x100) * (256 - a) == (d * (256 - a)) * 0x100;
  }

  lemma ChannelRange(s: Byte, d: Byte, a: Byte)
    ensures var v := Lerp256(s, d, a) / 256; s <= v <= d || d <= v <= s
  {
    WeightedBetween(s, d, a, 256);
  }

  /** Each channel is blended on its own, and the result lies between source and destination. */
  lemma FastBlendByChannel(dst: Pixel, src: Pixel, a: Byte, c: Channel)
    ensures var s, d, v := Get(src, c), Get(dst, c), Get(FastBlend(dst, src, a), c);
            && v == Lerp256(s, d, a) / 256
            && (s <= v <= d || d <= v <= s)
  {
    hide Get, Lerp256;
    RedBlueHalf(dst, src, a);
    GreenHalf(dst, src, a);
    ChannelRange(Get(src, c), Get(dst, c), a);
    ChannelRange(Get(src, Red), Get(dst, Red), a);
    ChannelRange(Get(src, Green), Get(dst, Green), a);
    ChannelRange(Get(src, Blue), Get(dst, Blue), a);
    SumOfLanes(Lerp256(Get(src, Red), Get(dst, Red), a) / 256, Lerp256(Get(src, Green), Get(dst, Green), a) / 256,
               Lerp256(Get(src, Blue), Get(dst, Blue), a) / 256);
  }

  lemma SumOfLanes(r: Byte, g: Byte, b: Byte)
    ensures Get(r * 0x1_0000 + b + g * 0x100, Red) == r
    ensures Get(r * 0x1_0000 + b + g * 0x100, Green) == g
    ensures Get(r * 0x1_0000 + b + g * 0x100, Blue) == b
  {
    assert r * 0x1_0000 + b + g * 0x100 == Pack(r, g, b);
  }

  // ----- Arbitrary layouts -----------------------------------------------------------------------

  /** Position and size in bits of each channel. */
  datatype Layout = Layout(redPos: nat, redSize: nat, greenPos: nat, greenSize: nat, bluePos: nat, blueSize: nat)

  const BGRA := Layout(16, 8, 8, 8, 0, 8)

  function ChannelMask(bits: nat): UInt32 {
    if bits == 0 then 0 else if bits >= 32 then 0xFFFF_FFFF else (Pow2Below(bits); Pow2(bits) - 1)
  }

  lemma {:induction false} Pow2Below(n: nat)
    requires n < 32
    ensures Pow2(n) <= 0x8000_0000
    decreases 32 - n
  {
    if n == 31 {
      assert Pow2(31) == 0x8000_0000 by { Pow2Of31(); }
    } else {
      Pow2Below(n + 1);
    }
  }

  lemma Pow2Of31()
    ensures Pow2(8) == 256 && Pow2(16) == 0x1_0000 && Pow2(31) == 0x8000_0000
  {
    assert Pow2(4) == 16;
    assert Pow2(8) == 256;
    assert Pow2(12) == 0x1000;
    assert Pow2(16) == 0x1_0000;
    assert Pow2(20) == 0x10_0000;
    assert Pow2(24) == 0x100_0000;
    assert Pow2(28) == 0x1000_0000;
  }

  function Unpack(pixel: Pixel, pos: nat, bits: nat): Byte {
    var mask := ChannelMask(bits);
    if mask == 0 then 0
    else
      var raw := pixel / Pow2(pos) % (mask + 1);
      raw * 255 % TWO_32 / mask % 256
  }

  function PackChannel(v: Byte, pos: nat, bits: nat): UInt32 {
    var mask := ChannelMask(bits);
    if mask == 0 then 0
    else
      var scaled := (v * mask + 127) % TWO_32 / 255;
      scaled % (mask + 1) * Pow2(pos) % TWO_32
  }

  function Blend255(s: Byte, d: Byte, alpha: Byte): (v: Byte)
    ensures s <= v <= d || d <= v <= s
  {
    WeightedBetween(s, d, alpha, 255);
    (s * alpha + d * (255 - alpha)) / 255
  }

  /** blend_color without the fast path, for channels that do not overlap. */
  function GenericBlend(l: Layout, dst: Pixel, src: Pixel, alpha: Byte): Pixel {
    var r := Blend255(Unpack(src, l.redPos, l.redSize), Unpack(dst, l.redPos, l.redSize), alpha);
    var g := Blend255(Unpack(src, l.greenPos, l.greenSize), Unpack(dst, l.greenPos, l.greenSize), alpha);
    var b := Blend255(Unpack(src, l.bluePos, l.blueSize), Unpack(dst, l.bluePos, l.blueSize), alpha);
    (PackChannel(r, l.redPos, l.redSize) + PackChannel(g, l.greenPos, l.greenSize)
      + PackChannel(b, l.bluePos, l.blueSize)) % TWO_32
  }

  lemma EightBits()
    ensures ChannelMask(8) == 255 && Pow2(16) == 0x1_0000 && Pow2(8) == 0x100 && Pow2(0) == 1
  {
    Pow2Of31();
  }

  lemma BgraChannels(p: Pixel)
    ensures Unpack(p, 16, 8) == Get(p, Red) && Unpack(p, 8, 8) == Get(p, Green) && Unpack(p, 0, 8) == Get(p, Blue)
  {
    hide Pow2, ChannelMask, Get;
    EightBits();
    GetByShift(p);
    FullScale(Get(p, Red));
    FullScale(Get(p, Green));
    FullScale(Get(p, Blue));
  }

  lemma GetByShift(p: Pixel)
    ensures p / 0x1_0000 % 256 == Get(p, Red) && p / 0x100 % 256 == Get(p, Green) && p / 1 % 256 == Get(p, Blue)
  {}

  lemma FullScale(raw: Byte)
    ensures raw * 255 % TWO_32 / 255 % 256 == raw
  {}

  lemma BgraPacked(v: Byte)
    ensures PackChannel(v, 16, 8) == v * 0x1_0000 && PackChannel(v, 8, 8) == v * 0x100 && PackChannel(v, 0, 8) == v
  {
    hide Pow2, ChannelMask;
    EightBits();
    RoundedBack(v);
  }

  lemma RoundedBack(v: Byte)
    ensures (v * 255 + 127) % TWO_32 / 255 == v && v % 256 == v
    ensures v * 0x1_0000 % TWO_32 == v * 0x1_0000 && v * 0x100 % TWO_32 == v * 0x100 && v * 1 % TWO_32 == v
  {}

  /** Dividing by 256 or by 255 differs by at most one. */
  lemma CloseEnough(s: Byte, d: Byte, a: Byte)
    ensures -1 <= Lerp256(s, d, a) / 256 - Blend255(s, d, a) <= 1
  {
    WeightedBetween(s, d, a, 256);
    WeightedBetween(s, d, a, 255);
    var sum := s * a + d * (255 - a);
    assert Lerp256(s, d, a) == sum + d by { assert d * (256 - a) == d * (255 - a) + d; }
    assert -255 * 255 <= (s - d) * a <= 255 * 255 by {
      if s >= d { MulLe(s - d, a, 255, 255); } else { MulLe(d - s, a, 255, 255); assert (d - s) * a == -((s - d) * a); }
    }
  }

  lemma GenericPacked(dst: Pixel, src: Pixel, a: Byte)
    ensures GenericBlend(BGRA, dst, src, a) ==
            Pack(Blend255(Get(src, Red), Get(dst, Red), a), Blend255(Get(src, Green), Get(dst, Green), a),
                 Blend255(Get(src, Blue), Get(dst, Blue), a))
  {
    var r := Blend255(Get(src, Red), Get(dst, Red), a);
    var g := Blend255(Get(src, Green), Get(dst, Green), a);
    var b := Blend255(Get(src, Blue), Get(dst, Blue), a);
    hide Unpack, PackChannel, Blend255, Get, Pack;
    BgraChannels(src);
    BgraChannels(dst);
    BgraPacked(r);
    BgraPacked(g);
    BgraPacked(b);
    PackIs(r, g, b);
  }

  lemma GenericBelow(dst: Pixel, src: Pixel, a: Byte)
    ensures GenericBlend(BGRA, dst, src, a) < 0x100_0000
  {
    hide GenericBlend, Get, Blend255, Pack;
    GenericPacked(dst, src, a);
    PackIs(Blend255(Get(src, Red), Get(dst, Red), a), Blend255(Get(src, Green), Get(dst, Green), a),
           Blend255(Get(src, Blue), Get(dst, Blue), a));
  }

  /** On the BGRA layout the generic blend works channel by channel, dividing by 255. */
  lemma GenericByChannel(dst: Pixel, src: Pixel, a: Byte, c: Channel)
    ensures Get(GenericBlend(BGRA, dst, src, a), c) == Blend255(Get(src, c), Get(dst, c), a)
  {
    hide GenericBlend, Get, Blend255, Pack;
    GenericPacked(dst, src, a);
  }

  /** On the BGRA layout the two blends differ by at most one level in every channel. */
  lemma BlendsAgree(dst: Pixel, src: Pixel, a: Byte, c: Channel)
    ensures -1 <= Get(FastBlend(dst, src, a), c) - Get(GenericBlend(BGRA, dst, src, a), c) <= 1
  {
    hide *;
    GenericByChannel(dst, src, a, c);
    FastBlendByChannel(dst, src, a, c);
    CloseEnough(Get(src, c), Get(dst, c), a);
  }

  // ----- Layouts other than BGRA -------------------------------------------------------------------

  /** The bits of a channel. */
  function Field(p: Pixel, pos: nat, bits: nat): nat {
    p / Pow2(pos) % Pow2(bits)
  }

  /** Three channels of one to eight bits each, in any order, that do not overlap. */
  predicate NoOverlap(l: Layout) {
    && 1 <= l.redSize <= 8 && 1 <= l.greenSize <= 8 && 1 <= l.blueSize <= 8
    && l.redPos + l.redSize <= 32 && l.greenPos + l.greenSize <= 32 && l.bluePos + l.blueSize <= 32
    && (l.redPos + l.redSize <= l.greenPos || l.greenPos + l.greenSize <= l.redPos)
    && (l.redPos + l.redSize <= l.bluePos || l.bluePos + l.blueSize <= l.redPos)
    && (l.greenPos + l.greenSize <= l.bluePos || l.bluePos + l.blueSize <= l.greenPos)
  }

  lemma MaskSizes(bits: nat)
    requires 1 <= bits <= 8
    ensures ChannelMask(bits) == Pow2(bits) - 1 && Pow2(bits) <= 256
    ensures Pow2(bits) == 256 || Pow2(bits) <= 128
  {
    assert Pow2(4) == 16;
    assert Pow2(8) == 256;
    if bits <= 4 { assert Pow2(bits) <= 16; }
  }

  /** `v` is a field of `bits` bits stretched to a byte, rounded down. */
  ghost predicate Stretched(v: Byte, raw: nat, bits: nat) {
    v * (Pow2(bits) - 1) <= raw * 255 < (v + 1) * (Pow2(bits) - 1)
  }

  /** `raw` is a byte squeezed into a field of `bits` bits, rounded to nearest. */
  ghost predicate Squeezed(raw: nat, v: Byte, bits: nat) {
    -127 <= 255 * raw - v * (Pow2(bits) - 1) <= 127
  }

  /** `v` is the mix of two bytes with weights `a` and 255 - `a`, rounded down. */
  ghost predicate Mixed(v: Byte, s: Byte, d: Byte, a: Byte) {
    v * 255 <= s * a + d * (255 - a) < (v + 1) * 255
  }

  function Shifted(raw: nat, pos: nat): nat {
    raw * Pow2(pos)
  }

  lemma StretchedDown(raw: nat, mask: nat)
    requires 0 < mask <= 255 && raw <= mask
    ensures var v := raw * 255 % TWO_32 / mask % 256;
            v * mask <= raw * 255 < (v + 1) * mask
  {
    var x := raw * 255;
    DivisionOf(x, mask);
    QuotientIsByte(x, mask, x / mask);
    MulSucc(x / mask, mask);
    assert x % TWO_32 == x && x / mask % 256 == x / mask;
  }

  lemma UnpackScales(p: Pixel, pos: nat, bits: nat)
    requires 1 <= bits <= 8
    ensures Stretched(Unpack(p, pos, bits), Field(p, pos, bits), bits)
  {
    MaskSizes(bits);
    hide Pow2, ChannelMask;
    var m := Pow2(bits);
    var raw := p / Pow2(pos) % m;
    StretchedDown(raw, m - 1);
  }

  lemma SqueezedNear(v: Byte, mask: nat)
    requires 0 < mask <= 255
    ensures var raw := (v * mask + 127) % TWO_32 / 255;
            raw <= mask && raw % (mask + 1) == raw && -127 <= 255 * raw - v * mask <= 127
  {
    MulLe(v, mask, 255, mask);
    MulLe(0, 0, v, mask);
    var x := v * mask;
    SqueezedBy255(x, mask);
  }

  lemma SqueezedBy255(x: nat, mask: nat)
    requires x <= 255 * mask && mask <= 255
    ensures var raw := (x + 127) % TWO_32 / 255;
            raw <= mask && raw % (mask + 1) == raw && -127 <= 255 * raw - x <= 127
  {
    var raw := (x + 127) % TWO_32 / 255;
    DivUnique(raw, mask + 1, 0, raw);
  }

  lemma Pow2Of32()
    ensures Pow2(32) == TWO_32
  {
    Pow2Of31();
    assert Pow2(32) == 2 * Pow2(31);
  }

  lemma ShiftFits(raw: nat, pos: nat, bits: nat)
    requires raw < Pow2(bits) && pos + bits <= 32
    ensures Shifted(raw, pos) + Pow2(pos) <= Pow2(pos + bits) <= TWO_32
  {
    Pow2Of32();
    hide Pow2;
    MulLe(raw + 1, Pow2(pos), Pow2(bits), Pow2(pos));
    MulSucc(raw, Pow2(pos));
    Pow2Add(pos, bits);
    Pow2Le(pos + bits, 32);
  }

  /** The bits of a channel that stand for a byte. */
  function Raw(v: Byte, bits: nat): (raw: nat)
    requires 1 <= bits <= 8
    ensures raw < Pow2(bits) && Squeezed(raw, v, bits)
  {
    MaskSizes(bits);
    SqueezedNear(v, Pow2(bits) - 1);
    (v * (Pow2(bits) - 1) + 127) % TWO_32 / 255
  }

  lemma RawStays(v: Byte, bits: nat)
    requires 1 <= bits <= 8
    ensures Raw(v, bits) % (ChannelMask(bits) + 1) == Raw(v, bits)
    ensures ChannelMask(bits) != 0 && (v * ChannelMask(bits) + 127) % TWO_32 / 255 == Raw(v, bits)
  {
    MaskSizes(bits);
    hide Pow2, ChannelMask, Squeezed;
    SqueezedNear(v, Pow2(bits) - 1);
  }

  lemma PackScales(v: Byte, pos: nat, bits: nat)
    requires 1 <= bits <= 8 && pos + bits <= 32
    ensures PackChannel(v, pos, bits) == Shifted(Raw(v, bits), pos)
  {
    hide Pow2, ChannelMask, Raw, Squeezed;
    RawStays(v, bits);
    ShiftFits(Raw(v, bits), pos, bits);
  }

  lemma FieldBetween(p: Pixel, low: nat, raw: nat, high: nat, pos: nat, bits: nat)
    requires p == low + Shifted(raw, pos) + Shifted(high, pos + bits) && low < Pow2(pos) && raw < Pow2(bits)
    ensures Field(p, pos, bits) == raw
  {
    Pow2Add(pos, bits);
    hide Pow2;
    Regroup(low, raw, high, Pow2(pos), Pow2(bits));
    DivUnique(p, Pow2(pos), raw + high * Pow2(bits), low);
    DivUnique(raw + high * Pow2(bits), Pow2(bits), high, raw);
  }

  lemma Regroup(low: nat, raw: nat, high: nat, a: nat, b: nat)
    ensures low + raw * a + high * (a * b) == (raw + high * b) * a + low
    ensures high * b >= 0
  {
    assert high * (a * b) == (high * b) * a;
    assert (raw + high * b) * a == raw * a + (high * b) * a;
  }

  /** A field further up is a multiple of what lies below it. */
  lemma Lifted(raw: nat, pos: nat, below: nat) returns (k: nat)
    requires below <= pos
    ensures Shifted(raw, pos) == Shifted(k, below)
  {
    k := raw * Pow2(pos - below);
    Pow2Add(pos - below, below);
    hide Pow2;
    MulAssoc(raw, Pow2(pos - below), Pow2(below));
  }

  lemma MulAssoc(a: nat, b: nat, c: nat)
    ensures a * (b * c) == (a * b) * c
  {}

  lemma ShiftedSum(a: nat, b: nat, pos: nat)
    ensures Shifted(a, pos) + Shifted(b, pos) == Shifted(a + b, pos)
    ensures Shifted(0, pos) == 0
  {}

  /** Three fields in ascending order do not disturb one another. */
  lemma SortedFields(a: nat, pa: nat, na: nat, b: nat, pb: nat, nb: nat, c: nat, pc: nat, nc: nat)
    requires pa + na <= pb && pb + nb <= pc && pc + nc <= 32
    requires a < Pow2(na) && b < Pow2(nb) && c < Pow2(nc)
    ensures var p := Shifted(a, pa) + Shifted(b, pb) + Shifted(c, pc);
            && p < TWO_32
            && Field(p, pa, na) == a && Field(p, pb, nb) == b && Field(p, pc, nc) == c
  {
    hide Pow2, Field, Shifted;
    ShiftFits(a, pa, na);
    ShiftFits(b, pb, nb);
    ShiftFits(c, pc, nc);
    Pow2Le(pa + na, pb);
    Pow2Le(pb + nb, pc);
    var p := Shifted(a, pa) + Shifted(b, pb) + Shifted(c, pc);
    var bl := Lifted(b, pb, pa + na);
    var cl := Lifted(c, pc, pa + na);
    var cm := Lifted(c, pc, pb + nb);
    ShiftedSum(bl, cl, pa + na);
    ShiftedSum(0, 0, pc + nc);
    FieldBetween(p, 0, a, bl + cl, pa, na);
    FieldBetween(p, Shifted(a, pa), b, cm, pb, nb);
    FieldBetween(p, Shifted(a, pa) + Shifted(b, pb), c, 0, pc, nc);
  }

  lemma FieldsApart(l: Layout, r: nat, g: nat, b: nat)
    requires NoOverlap(l) && r < Pow2(l.redSize) && g < Pow2(l.greenSize) && b < Pow2(l.blueSize)
    ensures var p := Shifted(r, l.redPos) + Shifted(g, l.greenPos) + Shifted(b, l.bluePos);
            && p < TWO_32
            && FieldOf(p, l, Red) == r && FieldOf(p, l, Green) == g && FieldOf(p, l, Blue) == b
  {
    hide Pow2, Field, Shifted;
    var Layout(rp, rn, gp, gn, bp, bn) := l;
    if rp < gp < bp { SortedFields(r, rp, rn, g, gp, gn, b, bp, bn); }
    else if rp < bp < gp { SortedFields(r, rp, rn, b, bp, bn, g, gp, gn); }
    else if gp < rp < bp { SortedFields(g, gp, gn, r, rp, rn, b, bp, bn); }
    else if gp < bp < rp { SortedFields(g, gp, gn, b, bp, bn, r, rp, rn); }
    else if bp < rp < gp { SortedFields(b, bp, bn, r, rp, rn, g, gp, gn); }
    else { SortedFields(b, bp, bn, g, gp, gn, r, rp, rn); }
  }

  function FieldOf(p: Pixel, l: Layout, c: Channel): nat {
    match c
    case Red => Field(p, l.redPos, l.redSize)
    case Green => Field(p, l.greenPos, l.greenSize)
    case Blue => Field(p, l.bluePos, l.blueSize)
  }

  function SizeOf(l: Layout, c: Channel): nat {
    match c
    case Red => l.redSize
    case Green => l.greenSize
    case Blue => l.blueSize
  }

  lemma Blend255Is(s: Byte, d: Byte, a: Byte)
    ensures Mixed(Blend255(s, d, a), s, d, a)
  {
    WeightedBetween(s, d, a, 255);
  }

  /**
    In every layout whose channels do not overlap, the generic blend works channel by channel:
    stretched to bytes, mixed, and squeezed again.
   */
  lemma GenericInLayout(l: Layout, dst: Pixel, src: Pixel, a: Byte, c: Channel) returns (s: Byte, d: Byte, v: Byte)
    requires NoOverlap(l)
    ensures Stretched(s, FieldOf(src, l, c), SizeOf(l, c)) && Stretched(d, FieldOf(dst, l, c), SizeOf(l, c))
    ensures Mixed(v, s, d, a) && Squeezed(FieldOf(GenericBlend(l, dst, src, a), l, c), v, SizeOf(l, c))
  {
    hide Unpack, PackChannel, Pow2, Blend255, Raw, Field, Shifted, Stretched, Squeezed, Mixed;
    var Layout(rp, rn, gp, gn, bp, bn) := l;
    var r := Blend255(Unpack(src, rp, rn), Unpack(dst, rp, rn), a);
    var g := Blend255(Unpack(src, gp, gn), Unpack(dst, gp, gn), a);
    var b := Blend255(Unpack(src, bp, bn), Unpack(dst, bp, bn), a);
    PackScales(r, rp, rn);
    PackScales(g, gp, gn);
    PackScales(b, bp, bn);
    FieldsApart(l, Raw(r, rn), Raw(g, gn), Raw(b, bn));
    match c {
      case Red =>
        s, d, v := Unpack(src, rp, rn), Unpack(dst, rp, rn), r;
        UnpackScales(src, rp, rn);
        UnpackScales(dst, rp, rn);
      case Green =>
        s, d, v := Unpack(src, gp, gn), Unpack(dst, gp, gn), g;
        UnpackScales(src, gp, gn);
        UnpackScales(dst, gp, gn);
      case Blue =>
        s, d, v := Unpack(src, bp, bn), Unpack(dst, bp, bn), b;
        UnpackScales(src, bp, bn);
        UnpackScales(dst, bp, bn);
    }
    Blend255Is(s, d, a);
  }

  // ----- What a drawing call does to a pixel -------------------------------------------------------

  datatype Mode = Fast | Generic(layout: Layout)

  function BlendColor(mode: Mode, dst: Pixel, src: Pixel, alpha: Byte): Pixel {
    match mode
    case Fast => FastBlend(dst, src, alpha)
    case Generic(l) => GenericBlend(l, dst, src, alpha)
  }

  /** fb_blend_pixel on a visible pixel. */
  function Drawn(mode: Mode, dst: Pixel, color: Pixel, alpha: Byte): Pixel {
    if alpha == 0 then dst else if alpha == 255 then color else BlendColor(mode, dst, color, alpha)
  }

  /** In layout `l`: channel `c` of `p` mixes those of the colour and of the pixel below. */
  ghost predicate MixedIn(l: Layout, c: Channel, p: Pixel, dst: Pixel, color: Pixel, alpha: Byte) {
    exists s: Byte, d: Byte, v: Byte ::
      && Stretched(s, FieldOf(color, l, c), SizeOf(l, c)) && Stretched(d, FieldOf(dst, l, c), SizeOf(l, c))
      && Mixed(v, s, d, alpha) && Squeezed(FieldOf(p, l, c), v, SizeOf(l, c))
  }

  /** What drawing a colour over pixel `dst` should give, channel by channel. */
  ghost predicate Blended(mode: Mode, p: Pixel, dst: Pixel, color: Pixel, alpha: Byte) {
    if alpha == 0 then p == dst
    else if alpha == 255 then p == color
    else
      match mode
      case Fast =>
        && p < 0x100_0000
        && forall c: Channel :: Get(p, c) == (Get(color, c) * alpha + Get(dst, c) * (256 - alpha)) / 256
      case Generic(l) =>
        && (l == BGRA ==>
              && p < 0x100_0000
              && forall c: Channel :: Get(p, c) == (Get(color, c) * alpha + Get(dst, c) * (255 - alpha)) / 255)
        && (NoOverlap(l) ==> forall c: Channel :: MixedIn(l, c, p, dst, color, alpha))
  }

  lemma FastIsBlended(dst: Pixel, color: Pixel, alpha: Byte)
    requires 0 < alpha < 255
    ensures Blended(Fast, FastBlend(dst, color, alpha), dst, color, alpha)
  {
    FastBelow(dst, color, alpha);
    hide FastBlend, Get;
    forall c: Channel
      ensures Get(FastBlend(dst, color, alpha), c) == (Get(color, c) * alpha + Get(dst, c) * (256 - alpha)) / 256
    {
      FastBlendByChannel(dst, color, alpha, c);
    }
  }

  lemma FastBelow(dst: Pixel, color: Pixel, alpha: Byte)
    ensures FastBlend(dst, color, alpha) < 0x100_0000
  {
    hide Get;
  }

  lemma GenericIsBlended(l: Layout, dst: Pixel, color: Pixel, alpha: Byte)
    requires 0 < alpha < 255
    ensures Blended(Generic(l), GenericBlend(l, dst, color, alpha), dst, color, alpha)
  {
    hide GenericBlend, Get, Stretched, Squeezed, Mixed, FieldOf, SizeOf;
    if l == BGRA {
      GenericBelow(dst, color, alpha);
      forall c: Channel
        ensures Get(GenericBlend(BGRA, dst, color, alpha), c)
             == (Get(color, c) * alpha + Get(dst, c) * (255 - alpha)) / 255
      {
        GenericByChannel(dst, color, alpha, c);
        MixOf(Get(color, c), Get(dst, c), alpha);
      }
    }
    if NoOverlap(l) {
      forall c: Channel ensures MixedIn(l, c, GenericBlend(l, dst, color, alpha), dst, color, alpha) {
        var s, d, v := GenericInLayout(l, dst, color, alpha, c);
      }
    }
  }

  lemma MixOf(s: Byte, d: Byte, a: Byte)
    ensures Blend255(s, d, a) == (s * a + d * (255 - a)) / 255
  {}

  /** Drawing does what it should, in either mode. */
  lemma DrawnIsBlended(mode: Mode, dst: Pixel, color: Pixel, alpha: Byte)
    ensures Blended(mode, Drawn(mode, dst, color, alpha), dst, color, alpha)
  {
    hide FastBlend, GenericBlend;
    if 0 < alpha < 255 {
      match mode {
        case Fast => FastIsBlended(dst, color, alpha);
        case Generic(l) => GenericIsBlended(l, dst, color, alpha);
      }
    }
  }

  lemma AlwaysBlended(mode: Mode, color: Pixel, alpha: Byte)
    ensures forall dst :: Blended(mode, Drawn(mode, dst, color, alpha), dst, color, alpha)
  {
    hide Blended, Drawn;
    forall dst ensures Blended(mode, Drawn(mode, dst, color, alpha), dst, color, alpha) {
      DrawnIsBlended(mode, dst, color, alpha);
    }
  }
}
