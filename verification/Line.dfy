/**
  The line walk of the software renderer (src/flush.c): the sequence of brush positions from
  one endpoint to the other.
 */
module Line {
  import opened Machine
  import opened Products

  datatype Point = Point(x: int, y: int)

  function Abs(i: int): nat {
    if i < 0 then -i else i
  }

  function Sign(from: int, to: int): int {
    if from < to then 1 else -1
  }

  /** How far `at` is from `from` in the direction of `to`. */
  function Along(from: int, to: int, at: int): int {
    if from < to then at - from else from - at
  }

  /**
    `m` is `k * d / n` rounded to the nearest integer, halves down: the minor coordinate of
    the ideal line after `k` of `n` steps along the major axis.
   */
  ghost predicate Rounds(m: int, k: int, d: int, n: int) {
    -n <= 2 * (m * n - k * d) < n || (n == 0 && m == 0)
  }

  /** Position after `k` steps from `a` towards `b`. */
  ghost predicate OnLine(p: Point, k: nat, a: Point, b: Point) {
    var dx, dy := Abs(b.x - a.x), Abs(b.y - a.y);
    var i, j := Along(a.x, b.x, p.x), Along(a.y, b.y, p.y);
    if dx >= dy then i == k && Rounds(j, k, dy, dx) else j == k && Rounds(i, k, dx, dy)
  }

  lemma RoundsUnique(m: int, m': int, k: int, d: int, n: int)
    requires Rounds(m, k, d, n) && Rounds(m', k, d, n)
    ensures m == m'
  {
    var p, p', q := m * n, m' * n, k * d;
    if n > 0 && m < m' { AtLeastApart(m, m', n); }
    if n > 0 && m' < m { AtLeastApart(m', m, n); }
  }

  lemma {:induction false} AtLeastApart(m: int, m': int, n: int)
    requires m < m' && n > 0
    ensures m' * n - m * n >= n
    decreases m' - m
  {
    if m + 1 < m' { AtLeastApart(m + 1, m', n); }
    MulSucc(m, n);
  }

  /** The contract of the walk leaves one position for every step. */
  lemma OnLineUnique(p: Point, q: Point, k: nat, a: Point, b: Point)
    requires OnLine(p, k, a, b) && OnLine(q, k, a, b)
    ensures p == q
  {
    var dx, dy := Abs(b.x - a.x), Abs(b.y - a.y);
    if dx >= dy {
      RoundsUnique(Along(a.y, b.y, p.y), Along(a.y, b.y, q.y), k, dy, dx);
    } else {
      RoundsUnique(Along(a.x, b.x, p.x), Along(a.x, b.x, q.x), k, dx, dy);
    }
  }

  /** The end of the ideal line is the far endpoint. */
  lemma OnlyEndpointAtEnd(p: Point, a: Point, b: Point)
    requires OnLine(p, Max(Abs(b.x - a.x), Abs(b.y - a.y)), a, b)
    ensures p == b
  {
    var dx, dy := Abs(b.x - a.x), Abs(b.y - a.y);
    if dx >= dy {
      assert dy * dx - dx * dy == 0;
      RoundsUnique(Along(a.y, b.y, p.y), dy, dx, dy, dx);
    } else {
      assert dx * dy - dy * dx == 0;
      RoundsUnique(Along(a.x, b.x, p.x), dx, dy, dx, dy);
    }
  }

  /** The ideal line is exactly half way between two positions after `k` steps. */
  ghost predicate Tie(k: int, d: int, n: int) {
    n > 0 && exists t :: HalfAbove(t, k, d, n)
  }

  ghost predicate HalfAbove(t: int, k: int, d: int, n: int) {
    2 * (t * n - k * d) == -n
  }

  lemma RoundsReversed(m: int, r: int, k: int, d: int, n: int)
    requires n > 0 && Rounds(m, k, d, n) && Rounds(r, n - k, d, n)
    ensures m == d - r <==> !Tie(k, d, n)
  {
    var s := d - r;
    assert r * n - (n - k) * d == k * d - s * n;
    MulSucc(s - 1, n);
    if Tie(k, d, n) {
      var t :| HalfAbove(t, k, d, n);
      RoundsUnique(t, m, k, d, n);
    } else {
      assert !HalfAbove(s - 1, k, d, n);
      RoundsUnique(s, m, k, d, n);
    }
  }

  lemma StraightLine(m: int, k: int, n: int)
    requires n > 0 && Rounds(m, k, 0, n)
    ensures m == 0
  {
    RoundsUnique(m, 0, k, 0, n);
  }

  lemma NoTieAtPoint(p: Point, q: Point, a: Point, b: Point)
    requires a == b && OnLine(p, 0, a, b) && OnLine(q, 0, b, a)
    ensures p == q && !Tie(0, 0, 0)
  {}

  /** Walking the other way visits the same position after the same distance unless it is a tie. */
  lemma ReversedLine(p: Point, q: Point, k: nat, a: Point, b: Point)
    requires k <= Max(Abs(b.x - a.x), Abs(b.y - a.y))
    requires OnLine(p, k, a, b) && OnLine(q, Max(Abs(b.x - a.x), Abs(b.y - a.y)) - k, b, a)
    ensures var dx, dy := Abs(b.x - a.x), Abs(b.y - a.y);
            p == q <==> if dx >= dy then !Tie(k, dy, dx) else !Tie(k, dx, dy)
  {
    hide Rounds, Tie;
    var dx, dy := Abs(b.x - a.x), Abs(b.y - a.y);
    if dx >= dy > 0 {
      RoundsReversed(Along(a.y, b.y, p.y), Along(b.y, a.y, q.y), k, dy, dx);
    } else if dy > dx > 0 {
      RoundsReversed(Along(a.x, b.x, p.x), Along(b.x, a.x, q.x), k, dx, dy);
    } else if dx > 0 {
      StraightLine(Along(a.y, b.y, p.y), k, dx);
      StraightLine(Along(b.y, a.y, q.y), dx - k, dx);
      RoundsReversed(0, 0, k, 0, dx);
    } else if dy > 0 {
      StraightLine(Along(a.x, b.x, p.x), k, dy);
      StraightLine(Along(b.x, a.x, q.x), dy - k, dy);
      RoundsReversed(0, 0, k, 0, dy);
    } else {
      NoTieAtPoint(p, q, a, b);
    }
  }

  /** The error term's meaning: `drift` is how far the minor axis is ahead, times the major length. */
  ghost predicate InBand(drift: int, dx: int, dy: int) {
    if dx == dy then drift == 0
    else if dx >= dy then -dx <= 2 * drift < dx else -dy <= -2 * drift < dy
  }

  lemma StartInBand(dx: int, dy: int)
    requires dx >= 0 && dy >= 0
    ensures Drift(0, 0, dx, dy) == 0 && (dx > 0 || dy > 0 ==> InBand(0, dx, dy)) && (dx == dy ==> InBand(0, dx, dy))
  {}

  /** One turn of the loop keeps the drift in its band and always advances the major axis. */
  lemma Turn(dx: int, dy: int, drift: int, err: int)
    requires dx >= 0 && dy >= 0 && (dx > 0 || dy > 0)
    requires InBand(drift, dx, dy) && err == drift + dx - dy
    ensures dx >= dy ==> 2 * err > -dy
    ensures dx < dy ==> 2 * err < dx
    ensures InBand(drift - (if 2 * err > -dy then dy else 0) + (if 2 * err < dx then dx else 0), dx, dy)
  {}

  /** How far the minor axis is ahead after `i` steps across and `j` down, times the major length. */
  function Drift(i: int, j: int, dx: int, dy: int): int {
    j * dx - i * dy
  }

  lemma DriftMoves(i: int, j: int, dx: int, dy: int)
    ensures Drift(i + 1, j, dx, dy) == Drift(i, j, dx, dy) - dy
    ensures Drift(i, j + 1, dx, dy) == Drift(i, j, dx, dy) + dx
    ensures Drift(i + 1, j + 1, dx, dy) == Drift(i, j, dx, dy) - dy + dx
    ensures Drift(0, 0, dx, dy) == 0
  {
    MulSucc(i, dy);
    MulSucc(j, dx);
  }

  lemma BandIsLine(p: Point, k: nat, a: Point, b: Point, drift: int)
    requires var dx, dy := Abs(b.x - a.x), Abs(b.y - a.y);
             && InBand(drift, dx, dy)
             && drift == Drift(Along(a.x, b.x, p.x), Along(a.y, b.y, p.y), dx, dy)
             && k == (if dx >= dy then Along(a.x, b.x, p.x) else Along(a.y, b.y, p.y))
             && (dx == dy == 0 ==> p == a)
    ensures OnLine(p, k, a, b)
  {
    var dx, dy := Abs(b.x - a.x), Abs(b.y - a.y);
    var i, j := Along(a.x, b.x, p.x), Along(a.y, b.y, p.y);
    assert j * dx == dx * j && i * dy == dy * i;
  }

  method Walk(a: Point, b: Point) returns (path: seq<Point>)
    ensures var n := Max(Abs(b.x - a.x), Abs(b.y - a.y));
            && |path| == n + 1 && path[0] == a && path[n] == b
            && forall k :: 0 <= k <= n ==> OnLine(path[k], k, a, b)
  {
    hide OnLine, Drift, InBand;
    var x0, y0 := a.x, a.y;
    var dx: int, dy: int := Abs(b.x - x0), Abs(b.y - y0);
    var sx, sy := Sign(x0, b.x), Sign(y0, b.y);
    var err := dx - dy;
    ghost var n := Max(dx, dy);
    ghost var i, j, drift := 0, 0, 0;
    path := [];
    StartInBand(dx, dy);
    while true
      invariant |path| <= n && |path| == if dx >= dy then i else j
      invariant i == Along(a.x, b.x, x0) && j == Along(a.y, b.y, y0)
      invariant drift == Drift(i, j, dx, dy) && InBand(drift, dx, dy) && err == drift + dx - dy
      invariant forall k :: 0 <= k < |path| ==> OnLine(path[k], k, a, b)
      invariant path != [] ==> path[0] == a
      invariant path == [] ==> x0 == a.x && y0 == a.y
      decreases n - |path|
    {
      ghost var p := Point(x0, y0);
      BandIsLine(p, |path|, a, b, drift);
      if |path| == n { OnlyEndpointAtEnd(p, a, b); }
      path := path + [Point(x0, y0)];
      if x0 == b.x && y0 == b.y { break; }
      Turn(dx, dy, drift, err);
      DriftMoves(i, j, dx, dy);
      var e2 := 2 * err;
      if e2 > -dy { err := err - dy; x0 := x0 + sx; i, drift := i + 1, drift - dy; }
      if e2 < dx { err := err + dx; y0 := y0 + sy; j, drift := j + 1, drift + dx; }
    }
  }
}
