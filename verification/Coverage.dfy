/**
  Anti-aliasing coverage in the software renderer (src/flush.c): how much of a pixel lies
  inside a circle, by sixteen samples, with two early-outs and a table filled on first use.
 */
module Coverage {
  import opened Machine
  import opened Products

  // ----- The sixteen samples ---------------------------------------------------------------------

  function Hit(p: int, q: int, limit: int): nat {
    if p * p + q * q <= limit then 1 else 0
  }

  /** The samples of one row, at offsets -3, -1, 1 and 3 eighths of a pixel. */
  function RowHits(x8: int, q: int, limit: int): (n: nat)
    ensures n <= 4
  {
    Hit(x8 - 3, q, limit) + Hit(x8 - 1, q, limit) + Hit(x8 + 1, q, limit) + Hit(x8 + 3, q, limit)
  }

  function Hits(dx: nat, dy: nat, r: nat): (n: nat)
    ensures n <= 16
  {
    var x8, y8, limit := dx * 8, dy * 8, r * r * 64;
    RowHits(x8, y8 - 3, limit) + RowHits(x8, y8 - 1, limit) + RowHits(x8, y8 + 1, limit) + RowHits(x8, y8 + 3, limit)
  }

  /** Coverage of the pixel `dx` across and `dy` down from the centre of a circle of radius `r`. */
  function Covered(dx: nat, dy: nat, r: int): Byte {
    if r <= 0 then 0 else Hits(dx, dy, r) * 255 / 16
  }

  // ----- What is counted ---------------------------------------------------------------------------

  /** Sample point `n` of a pixel's four by four: its offsets from the centre in eighths of a pixel. */
  function SampleAt(n: nat): (int, int) {
    (2 * (n % 4) - 3, 2 * (n / 4) - 3)
  }

  predicate InCircle(dx: int, dy: int, r: int, n: nat) {
    var (p, q) := SampleAt(n);
    (8 * dx + p) * (8 * dx + p) + (8 * dy + q) * (8 * dy + q) <= 64 * (r * r)
  }

  /** The sample points of the pixel (dx, dy) away from the centre of a circle that lie in it. */
  ghost function Samples(dx: int, dy: int, r: int, m: nat): set<nat> {
    set n: nat | n < m && InCircle(dx, dy, r, n)
  }

  function Tally(dx: int, dy: int, r: int, m: nat): nat {
    if m == 0 then 0 else Tally(dx, dy, r, m - 1) + if InCircle(dx, dy, r, m - 1) then 1 else 0
  }

  lemma {:induction false} SamplesTallied(dx: int, dy: int, r: int, m: nat)
    ensures |Samples(dx, dy, r, m)| == Tally(dx, dy, r, m)
  {
    hide InCircle;
    if m > 0 {
      SamplesTallied(dx, dy, r, m - 1);
      var before := Samples(dx, dy, r, m - 1);
      assert Samples(dx, dy, r, m) == if InCircle(dx, dy, r, m - 1) then before + {m - 1} else before;
    } else {
      assert Samples(dx, dy, r, 0) == {};
    }
  }

  lemma CircleHits(dx: int, dy: int, r: int, n: nat)
    ensures (if InCircle(dx, dy, r, n) then 1 else 0)
         == Hit(dx * 8 + SampleAt(n).0, dy * 8 + SampleAt(n).1, r * r * 64)
  {}

  lemma TallyRow(dx: int, dy: int, r: int, k: nat)
    requires k < 4
    ensures Tally(dx, dy, r, 4 * k + 4) == Tally(dx, dy, r, 4 * k) + RowHits(dx * 8, dy * 8 + 2 * k - 3, r * r * 64)
  {
    hide Tally, Hit;
    TallyNext(dx, dy, r, 4 * k, k, 0);
    TallyNext(dx, dy, r, 4 * k + 1, k, 1);
    TallyNext(dx, dy, r, 4 * k + 2, k, 2);
    TallyNext(dx, dy, r, 4 * k + 3, k, 3);
  }

  lemma TallyNext(dx: int, dy: int, r: int, m: nat, k: nat, i: nat)
    requires m == 4 * k + i && i < 4
    ensures Tally(dx, dy, r, m + 1)
         == Tally(dx, dy, r, m) + Hit(dx * 8 + 2 * i - 3, dy * 8 + 2 * k - 3, r * r * 64)
  {
    hide InCircle, Hit, SampleAt;
    SampleIs(m, k, i);
    CircleHits(dx, dy, r, m);
  }

  lemma SampleIs(m: nat, k: nat, i: nat)
    requires m == 4 * k + i && i < 4
    ensures SampleAt(m) == (2 * i - 3, 2 * k - 3)
  {}

  lemma SamplesCounted(dx: int, dy: int, r: int)
    ensures var x8, y8, limit := dx * 8, dy * 8, r * r * 64;
            |Samples(dx, dy, r, 16)| == RowHits(x8, y8 - 3, limit) + RowHits(x8, y8 - 1, limit)
                                        + RowHits(x8, y8 + 1, limit) + RowHits(x8, y8 + 3, limit)
  {
    SamplesTallied(dx, dy, r, 16);
    assert Tally(dx, dy, r, 0) == 0;
    hide RowHits, Tally, Samples;
    TallyRow(dx, dy, r, 0);
    TallyRow(dx, dy, r, 1);
    TallyRow(dx, dy, r, 2);
    TallyRow(dx, dy, r, 3);
  }

  lemma RowMirrors(x8: int, q: int, limit: int)
    ensures RowHits(x8, -q, limit) == RowHits(x8, q, limit)
  {
    SquareOfNegation(q);
  }

  lemma ColumnMirrors(x8: int, q: int, limit: int)
    ensures RowHits(-x8, q, limit) == RowHits(x8, q, limit)
  {
    SquareOfNegation(x8 - 3);
    SquareOfNegation(x8 - 1);
    SquareOfNegation(x8 + 1);
    SquareOfNegation(x8 + 3);
  }

  function Apart(d: int): nat {
    if d < 0 then -d else d
  }

  lemma RowsMirror(x8: int, y8: int, limit: int)
    ensures RowHits(x8, -y8 - 3, limit) == RowHits(x8, y8 + 3, limit)
    ensures RowHits(x8, -y8 - 1, limit) == RowHits(x8, y8 + 1, limit)
    ensures RowHits(x8, -y8 + 1, limit) == RowHits(x8, y8 - 1, limit)
    ensures RowHits(x8, -y8 + 3, limit) == RowHits(x8, y8 - 3, limit)
  {
    hide RowHits;
    RowMirrors(x8, y8 + 3, limit);
    RowMirrors(x8, y8 + 1, limit);
    RowMirrors(x8, y8 - 1, limit);
    RowMirrors(x8, y8 - 3, limit);
  }

  /** Coverage is the number of the sixteen sample points in the circle, scaled to 255, on all sides. */
  lemma CoverageIsCount(dx: int, dy: int, r: int)
    requires r > 0
    ensures Covered(Apart(dx), Apart(dy), r) == |Samples(dx, dy, r, 16)| * 255 / 16
  {
    hide RowHits, Samples;
    SamplesCounted(dx, dy, r);
    var x8, y8, limit := Apart(dx) * 8, Apart(dy) * 8, r * r * 64;
    RowsMirror(dx * 8, y8, limit);
    ColumnMirrors(x8, y8 - 3, limit);
    ColumnMirrors(x8, y8 - 1, limit);
    ColumnMirrors(x8, y8 + 1, limit);
    ColumnMirrors(x8, y8 + 3, limit);
  }

  // ----- Order -------------------------------------------------------------------------------------

  lemma SquareLe(a: int, b: int)
    requires -b <= a <= b
    ensures a * a <= b * b
  {
    if a >= 0 { MulLe(a, a, b, b); }
    else { SquareOfNegation(a); MulLe(-a, -a, b, b); }
  }

  lemma HitShrinks(p: int, p': int, q: int, q': int, limit: int, limit': int)
    requires -p' <= p <= p' && -q' <= q <= q' && limit' <= limit
    ensures Hit(p', q', limit') <= Hit(p, q, limit)
  {
    SquareLe(p, p');
    SquareLe(q, q');
  }

  /** Moving a sample row away from the centre, or shrinking the circle, loses samples. */
  lemma RowShrinks(x8: int, x8': int, q: int, q': int, limit: int, limit': int)
    requires 0 <= x8 && (x8' == x8 || x8' >= x8 + 8) && -q' <= q <= q' && limit' <= limit
    ensures RowHits(x8', q', limit') <= RowHits(x8, q, limit)
  {
    if x8' > x8 {
      HitShrinks(x8 - 3, x8' - 3, q, q', limit, limit');
      HitShrinks(x8 - 1, x8' - 1, q, q', limit, limit');
      HitShrinks(x8 + 1, x8' + 1, q, q', limit, limit');
      HitShrinks(x8 + 3, x8' + 3, q, q', limit, limit');
    } else {
      SquareLe(q, q');
    }
  }

  /** Coverage never grows with distance and never falls with the radius. */
  lemma CoverageIsMonotone(dx: nat, dy: nat, r: int, dx': nat, dy': nat, r': int)
    requires dx <= dx' && dy <= dy' && r' <= r
    ensures Covered(dx', dy', r') <= Covered(dx, dy, r)
  {
    hide Hit, RowHits;
    if r' > 0 {
      var x8, y8, x8', y8' := dx * 8, dy * 8, dx' * 8, dy' * 8;
      var limit, limit' := r * r * 64, r' * r' * 64;
      MulLe(r', r', r, r);
      if dy == dy' == 0 {
        RowShrinks(x8, x8', 3, 3, limit, limit');
        RowShrinks(x8, x8', 1, 1, limit, limit');
        RowMirrors(x8, 3, limit); RowMirrors(x8', 3, limit');
        RowMirrors(x8, 1, limit); RowMirrors(x8', 1, limit');
      } else {
        RowShrinks(x8, x8', y8 - 3, y8' - 3, limit, limit');
        RowShrinks(x8, x8', y8 - 1, y8' - 1, limit, limit');
        RowShrinks(x8, x8', y8 + 1, y8' + 1, limit, limit');
        RowShrinks(x8, x8', y8 + 3, y8' + 3, limit, limit');
      }
    }
  }

  /** The inner disc of a ring never covers more of a pixel than the outer one. */
  lemma RingCoverage(dx: nat, dy: nat, radius: int, thickness: int)
    requires 0 < thickness <= radius
    ensures Covered(dx, dy, radius - thickness) <= Covered(dx, dy, radius)
  {
    CoverageIsMonotone(dx, dy, radius, dx, dy, radius - thickness);
  }

  /** Coverage is the same on both sides of a diagonal. */
  lemma CoverageIsSymmetric(dx: nat, dy: nat, r: int)
    ensures Covered(dx, dy, r) == Covered(dy, dx, r)
  {
    var x8, y8, limit := dx * 8, dy * 8, r * r * 64;
    assert forall p, q {:trigger Hit(p, q, limit)} :: Hit(p, q, limit) == Hit(q, p, limit);
  }

  // ----- The early-outs ----------------------------------------------------------------------------

  lemma AllInside(x8: int, y8: int, limit: int)
    requires 0 <= x8 && 0 <= y8 && (x8 + 3) * (x8 + 3) + (y8 + 3) * (y8 + 3) <= limit
    ensures forall p, q :: x8 - 3 <= p <= x8 + 3 && y8 - 3 <= q <= y8 + 3 ==> Hit(p, q, limit) == 1
  {
    forall p, q | x8 - 3 <= p <= x8 + 3 && y8 - 3 <= q <= y8 + 3 ensures Hit(p, q, limit) == 1 {
      SquareLe(p, x8 + 3);
      SquareLe(q, y8 + 3);
    }
  }

  function Nearest(v8: int): int {
    if v8 - 3 < 0 then 0 else v8 - 3
  }

  lemma AllOutside(x8: int, y8: int, limit: int)
    requires 0 <= x8 && 0 <= y8
    requires Nearest(x8) * Nearest(x8) + Nearest(y8) * Nearest(y8) > limit
    ensures forall p, q :: x8 - 3 <= p <= x8 + 3 && y8 - 3 <= q <= y8 + 3 ==> Hit(p, q, limit) == 0
  {
    forall p, q | x8 - 3 <= p <= x8 + 3 && y8 - 3 <= q <= y8 + 3 ensures Hit(p, q, limit) == 0 {
      if p >= 0 { SquareLe(Nearest(x8), p); } else { SquareOfNegation(p); }
      if q >= 0 { SquareLe(Nearest(y8), q); } else { SquareOfNegation(q); }
    }
  }

  const OFFSETS: seq<int> := [-3, -1, 1, 3]

  /** cov_compute. */
  method Compute(dx: nat, dy: nat, r: int) returns (cov: Byte)
    ensures cov == Covered(dx, dy, r)
  {
    hide Hit;
    if r <= 0 { return 0; }
    var x8, y8, limit := dx * 8, dy * 8, r * r * 64;
    if (x8 + 3) * (x8 + 3) + (y8 + 3) * (y8 + 3) <= limit {
      AllInside(x8, y8, limit);
      return 255;
    }
    if Nearest(x8) * Nearest(x8) + Nearest(y8) * Nearest(y8) > limit {
      AllOutside(x8, y8, limit);
      return 0;
    }
    var hits := 0;
    for sy := 0 to 4
      invariant hits == (if sy > 0 then RowHits(x8, y8 - 3, limit) else 0)
                        + (if sy > 1 then RowHits(x8, y8 - 1, limit) else 0)
                      + (if sy > 2 then RowHits(x8, y8 + 1, limit) else 0)
                        + (if sy > 3 then RowHits(x8, y8 + 3, limit) else 0)
    {
      var q := y8 + OFFSETS[sy];
      ghost var before := hits;
      for sx := 0 to 4
        invariant hits == before + (if sx > 0 then Hit(x8 - 3, q, limit) else 0)
                          + (if sx > 1 then Hit(x8 - 1, q, limit) else 0)
                        + (if sx > 2 then Hit(x8 + 1, q, limit) else 0) + (if sx > 3 then Hit(x8 + 3, q, limit) else 0)
      {
        var p := x8 + OFFSETS[sx];
        HitIs(p, q, limit);
        if p * p + q * q <= limit { hits := hits + 1; }
      }
    }
    return hits * 255 / 16;
  }

  lemma HitIs(p: int, q: int, limit: int)
    ensures Hit(p, q, limit) == if p * p + q * q <= limit then 1 else 0
  {}

  // ----- The table ---------------------------------------------------------------------------------

  const MAX_R := 32

  class Cache {
    const lut: array3<Byte>
    const ready: array<bool>

    ghost predicate Valid()
      reads lut, ready
    {
      && lut.Length0 == lut.Length1 == lut.Length2 == MAX_R + 1 && ready.Length == MAX_R + 1
      && forall r, dx, dy :: 0 <= dx <= r <= MAX_R && 0 <= dy <= r && ready[r] ==> lut[r, dx, dy] == Covered(dx, dy, r)
    }

    constructor ()
      ensures Valid() && fresh(lut) && fresh(ready)
      ensures forall r :: 0 <= r <= MAX_R ==> !ready[r]
    {
      lut := new Byte[MAX_R + 1, MAX_R + 1, MAX_R + 1]((_, _, _) => 0);
      ready := new bool[MAX_R + 1](_ => false);
    }

    method Fill(r: nat)
      requires Valid() && r <= MAX_R
      modifies lut, ready
      ensures Valid() && ready[r]
      ensures forall s :: 0 <= s <= MAX_R && s != r ==> ready[s] == old(ready[s])
    {
      hide Covered;
      for dx := 0 to r + 1
        invariant Valid() || ready[r]
        invariant forall s, a, b :: 0 <= s <= MAX_R && 0 <= a <= MAX_R && 0 <= b <= MAX_R && s != r ==>
                    lut[s, a, b] == old(lut[s, a, b])
        invariant forall a, b :: 0 <= a < dx && 0 <= b <= r ==> lut[r, a, b] == Covered(a, b, r)
        modifies lut
      {
        for dy := 0 to r + 1
          invariant forall s, a, b :: 0 <= s <= MAX_R && 0 <= a <= MAX_R && 0 <= b <= MAX_R && s != r ==>
                      lut[s, a, b] == old(lut[s, a, b])
          invariant forall a, b :: (0 <= a < dx && 0 <= b <= r) || (a == dx && 0 <= b < dy)
                      ==> lut[r, a, b] == Covered(a, b, r)
          modifies lut
        {
          var cov := Compute(dx, dy, r);
          lut[r, dx, dy] := cov;
        }
      }
      ready[r] := true;
    }

    /** cov_lookup: whatever is in the table, the answer is the sample count. */
    method Lookup(dx0: int, dy0: int, r: int) returns (cov: Byte)
      requires Valid()
      modifies lut, ready
      ensures Valid()
      ensures cov == Covered(if dx0 < 0 then -dx0 else dx0, if dy0 < 0 then -dy0 else dy0, r)
    {
      if r <= 0 { return 0; }
      var dx := if dx0 < 0 then -dx0 else dx0;
      var dy := if dy0 < 0 then -dy0 else dy0;
      if r <= MAX_R && dx <= r && dy <= r {
        if !ready[r] { Fill(r); }
        return lut[r, dx, dy];
      }
      cov := Compute(dx, dy, r);
    }
  }
}
