/** The integer types of the C sources that the models share. */
module Machine {
  const TWO_32: int := 0x1_0000_0000

  type Byte = i: int | 0 <= i < 256
  type UInt32 = i: int | 0 <= i < 0x1_0000_0000
  type Int32 = i: int | -0x8000_0000 <= i < 0x8000_0000

  function Max(a: int, b: int): int { if a > b then a else b }
  function Min(a: int, b: int): int { if a < b then a else b }

  /** C's conversion of a signed value to `uint32_t`. */
  function Unsigned(i: int): (u: UInt32)
    ensures 0 <= i < TWO_32 ==> u == i
    ensures -TWO_32 <= i < 0 ==> u == i + TWO_32
  {
    i % TWO_32
  }
}

/** Small facts about products that the solver does not find by itself. */
module Products {
  lemma {:induction false} MulLe(a: nat, b: nat, c: nat, d: nat)
    requires a <= c && b <= d
    ensures a * b <= c * d
    decreases c
  {
    if a > 0 {
      MulLe(a - 1, b, c - 1, d);
      MulSucc(a - 1, b);
      MulSucc(c - 1, d);
    }
  }

  lemma MulSucc(m: int, n: int)
    ensures (m + 1) * n == m * n + n
  {}

  lemma DivUnique(a: nat, b: nat, q: nat, t: nat)
    requires t < b && a == q * b + t
    ensures a / b == q && a % b == t
  {
    var q', t' := a / b, a % b;
    assert a == q' * b + t';
    if q' < q { MulLe(q' + 1, b, q, b); MulSucc(q', b); }
    if q < q' { MulLe(q + 1, b, q', b); MulSucc(q, b); }
  }

  lemma QuotientFits(x: nat, n: nat)
    requires n > 0
    ensures 0 <= x / n <= x
  {
    if x / n > x { MulLe(x + 1, 1, x / n, n); }
  }

  lemma QuotientIsByte(sum: nat, kern: nat, q: nat)
    requires kern > 0 && q * kern <= sum <= 255 * kern
    ensures q <= 255
  {
    if q >= 256 { MulLe(256, kern, q, kern); }
  }

  lemma DivisionOf(sum: nat, kern: nat)
    requires kern > 0
    ensures sum == sum / kern * kern + sum % kern && sum % kern < kern && sum / kern >= 0
  {}

  lemma SquareOfNegation(a: int)
    ensures (-a) * (-a) == a * a && a * a >= 0
  {}

  lemma SquareGap(r: int)
    ensures r * r - (r - 1) * (r - 1) == 2 * r - 1
  {}

  function Pow2(n: nat): (p: nat)
    ensures p > 0
  {
    if n == 0 then 1 else 2 * Pow2(n - 1)
  }

  lemma {:induction false} Pow2Add(m: nat, n: nat)
    ensures Pow2(m + n) == Pow2(m) * Pow2(n)
  {
    if m > 0 {
      Pow2Add(m - 1, n);
      Twice(Pow2(m - 1), Pow2(n));
    }
  }

  lemma Twice(a: nat, b: nat)
    ensures 2 * (a * b) == (2 * a) * b
  {}

  lemma {:induction false} Pow2Le(n: nat, m: nat)
    requires n <= m
    ensures Pow2(n) <= Pow2(m)
    decreases m - n
  {
    if n < m { Pow2Le(n, m - 1); }
  }

  /** A weighted sum of `s` and `d` lies between its ends. */
  lemma WeightedBetween(s: nat, d: nat, a: nat, n: nat)
    requires a <= n
    ensures s * a + d * (n - a) == d * n + (s - d) * a
    ensures s <= d ==> s * n <= s * a + d * (n - a) <= d * n
    ensures d <= s ==> d * n <= s * a + d * (n - a) <= s * n
  {
    assert d * (n - a) == d * n - d * a;
    assert (s - d) * a == s * a - d * a;
    if s >= d {
      MulLe(s - d, a, s - d, n);
      assert (s - d) * n == s * n - d * n;
    } else {
      MulLe(d - s, a, d - s, n);
      assert (d - s) * a == d * a - s * a && (d - s) * n == d * n - s * n;
    }
  }
}
