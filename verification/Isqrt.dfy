/**
  The bit-by-bit integer square root of the software renderer and the gradient parameter that
  relies on it (k_isqrt and draw_radial_alpha in src/flush.c).
 */
module Isqrt {
  import opened Machine
  import opened Products

  /** `r` is the integer part of the square root of `x`. */
  predicate IsRoot(r: nat, x: nat) {
    r * r <= x < (r + 1) * (r + 1)
  }

  lemma RootUnique(r: nat, s: nat, x: nat)
    requires IsRoot(r, x) && IsRoot(s, x)
    ensures r == s
  {
    if r < s { MulLe(r + 1, r + 1, s, s); }
    if s < r { MulLe(s + 1, s + 1, r, r); }
  }

  /**
    The state of the second loop for the power of four `bit == s * s`: the root found so far is
    `a`, a multiple of `2 * s`; `rest` and `r` are what the code keeps instead of it.
   */
  ghost predicate Partial(x: nat, a: nat, s: nat, rest: int, r: int) {
    && rest == x - a * a && r == 2 * (a * s)
    && a * a <= x < (a + 2 * s) * (a + 2 * s)
  }

  lemma SquareOfSum(a: int, s: int)
    ensures (a + s) * (a + s) == a * a + 2 * (a * s) + s * s
  {
    assert (a + s) * (a + s) == a * (a + s) + s * (a + s);
  }

  /** One turn for `s == 2 * t`, where the next power of four is `t * t`. */
  lemma Turn(x: nat, a: nat, s: nat, t: nat, rest: int, r: int)
    requires Partial(x, a, s, rest, r) && s == 2 * t && t > 0
    ensures rest >= r + s * s <==> x >= (a + s) * (a + s)
    ensures rest >= r + s * s ==> Partial(x, a + s, t, rest - (r + s * s), r / 2 + s * s)
    ensures rest < r + s * s ==> Partial(x, a, t, rest, r / 2)
    ensures r % 2 == 0
  {
    SquareOfSum(a, s);
    assert a * s == 2 * (a * t) && (a + s) * t == a * t + s * t && s * s == 2 * (s * t);
    assert a + 2 * t == a + s && (a + s) + 2 * t == a + 2 * s;
  }

  /** The last turn, where `bit` is 1 and becomes 0. */
  lemma LastTurn(x: nat, a: nat, rest: int, r: int)
    requires Partial(x, a, 1, rest, r)
    ensures r == 2 * a
    ensures rest >= r + 1 ==> IsRoot(a + 1, x) && r / 2 + 1 == a + 1
    ensures rest < r + 1 ==> IsRoot(a, x) && r / 2 == a
  {
    SquareOfSum(a, 1);
  }

  /** No intermediate value of the loop leaves 32 bits. */
  lemma NoWrap(x: nat, a: nat, s: nat, rest: int, r: int)
    requires Partial(x, a, s, rest, r) && x < TWO_32 && a + 2 * s <= 0x1_0000 && s > 0
    ensures 0 <= rest < TWO_32 && 0 <= r && r + s * s < TWO_32
  {
    SquareOfSum(a, s);
    MulLe(a + s, a + s, 0xFFFF, 0xFFFF);
    MulLe(0, 0, a, s);
    MulLe(0, 0, a, a);
  }

  lemma Pow2Of15()
    ensures Pow2(15) == 0x8000
  {
    assert Pow2(4) == 16;
    assert Pow2(8) == 256;
    assert Pow2(12) == 0x1000;
  }

  method Root(x: UInt32) returns (root: nat)
    ensures IsRoot(root, x)
  {
    hide Partial, Pow2, IsRoot;
    var bit: int := 0x4000_0000;
    ghost var k: int := 15;
    ghost var s := Pow2(15);
    Pow2Of15();
    assert x < (2 * s) * (2 * s);
    while bit > x
      invariant (k == -1 && bit == 0 && x == 0) || (0 <= k <= 15 && s == Pow2(k)
                && bit == s * s && x < (2 * s) * (2 * s))
      decreases k
    {
      HalvePower(k, s);
      k, bit := k - 1, bit / 4;
      if k >= 0 { s := Pow2(k); }
    }
    var rest: int, r: int := x, 0;
    if bit == 0 {
      RootOfZero();
      return 0;
    }
    ghost var a := 0;
    StartPartial(x, s);
    Pow2Le(k, 15);
    while bit != 0
      invariant (bit == 0 && k == -1 && r >= 0 && IsRoot(r, x)) ||
                (0 <= k <= 15 && s == Pow2(k) && bit == s * s
                 && a >= 0 && a + 2 * s <= 0x1_0000 && Partial(x, a, s, rest, r))
      decreases k
    {
      NoWrap(x, a, s, rest, r);
      HalvePower(k, s);
      if k == 0 { LastTurn(x, a, rest, r); } else { Turn(x, a, s, Pow2(k - 1), rest, r); }
      if rest >= (r + bit) % TWO_32 {
        rest := rest - (r + bit);
        r := r / 2 + bit;
        a := a + s;
      } else {
        r := r / 2;
      }
      k, bit := k - 1, bit / 4;
      if k >= 0 { s := Pow2(k); }
    }
    return r;
  }

  lemma HalvePower(k: nat, s: nat)
    requires s == Pow2(k)
    ensures k > 0 ==> s == 2 * Pow2(k - 1) && s * s / 4 == Pow2(k - 1) * Pow2(k - 1)
    ensures k == 0 ==> s == 1 && s * s / 4 == 0
    ensures s * s > 0
  {
    if k > 0 {
      var t := Pow2(k - 1);
      assert (2 * t) * (2 * t) == 4 * (t * t);
      MulLe(1, 1, t, t);
    }
  }

  lemma StartPartial(x: nat, s: nat)
    requires x < (2 * s) * (2 * s)
    ensures Partial(x, 0, s, x, 0)
  {}

  lemma RootOfZero()
    ensures IsRoot(0, 0)
  {}

  // ----- The radial gradient ---------------------------------------------------------------------------

  /** `(uint8_t)((d * 255u) / radius)` at offset (dx, dy) from the centre. */
  function Share(d: nat, radius: nat): int
    requires radius > 0
  {
    d * 255 / radius
  }

  lemma ShareIs(d: nat, radius: nat)
    requires radius > 0
    ensures Share(d, radius) * radius <= d * 255 < Share(d, radius) * radius + radius
  {
    assert d * 255 == radius * (d * 255 / radius) + d * 255 % radius;
    assert radius * (d * 255 / radius) == d * 255 / radius * radius;
  }

  /** The parameter goes up evenly from 0 in the centre. */
  lemma ShareRises(d: nat, e: nat, radius: nat)
    requires radius > 0 && d <= e
    ensures 0 == Share(0, radius) <= Share(d, radius) <= Share(e, radius)
  {
    ShareIs(0, radius);
    ShareIs(d, radius);
    ShareIs(e, radius);
    DivUnique(0, radius, 0, 0);
    MulSucc(Share(e, radius), radius);
    if Share(d, radius) > Share(e, radius) { MulLe(Share(e, radius) + 1, radius, Share(d, radius), radius); }
  }

  lemma RootBelow(d: nat, d2: nat, radius: nat)
    requires IsRoot(d, d2) && d2 <= radius * radius
    ensures d <= radius
  {
    if d > radius { MulLe(radius + 1, radius + 1, d, d); SquareOfSum(radius, 1); }
  }

  /** Inside the circle the gradient parameter fits its byte, and reaches 255 only on the rim. */
  lemma ShareFitsByte(d: nat, dx: int, dy: int, radius: nat)
    requires radius > 0 && dx * dx + dy * dy >= 0 && IsRoot(d, dx * dx + dy * dy)
    requires dx * dx + dy * dy <= radius * radius
    ensures 0 <= Share(d, radius) <= 255
    ensures Share(d, radius) == 255 <==> dx * dx + dy * dy == radius * radius
  {
    RootBelow(d, dx * dx + dy * dy, radius);
    var q := Share(d, radius);
    MulLe(0, 255, d, 255);
    assert d * 255 == radius * q + d * 255 % radius;
    if d == radius {
      DivUnique(d * 255, radius, 255, 0);
    } else {
      if q >= 255 { MulLe(radius, 255, radius, q); }
      SquareOfSum(d, 1);
      MulLe(d + 1, d + 1, radius, radius);
    }
  }

  /**
    The gradient parameter of every pixel the circle loop draws, without truncation: 255 times the
    whole distance from the centre, divided by the radius and rounded down.
   */
  method RadialShare(dx: int, dy: int, radius: nat) returns (t: Byte)
    requires 0 < radius && 0 <= dx * dx + dy * dy <= radius * radius < 0x8000_0000
    ensures forall d: nat :: IsRoot(d, dx * dx + dy * dy) ==> t * radius <= d * 255 < t * radius + radius
  {
    var d := Root(dx * dx + dy * dy);
    ShareFitsByte(d, dx, dy, radius);
    t := Share(d, radius) % 256;
    ShareIs(d, radius);
    forall e: nat | IsRoot(e, dx * dx + dy * dy) ensures t * radius <= e * 255 < t * radius + radius {
      RootUnique(d, e, dx * dx + dy * dy);
    }
  }
}
