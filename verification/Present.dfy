/**
  The presenter of the software renderer (fb_present and fb_present_invalidate in src/flush.c)
  with the backbuffer in use and the GPU path declining: it copies only the span of each row
  that differs from a snapshot of the last frame, compared two pixels at a time.
 */
module Present {
  import opened Pixels

  // ----- What presenting means -----------------------------------------------------------------

  /** What is drawn, and what is on the screen. */
  datatype Screens = Screens(back: Image, front: Image)

  datatype Op =
    | Write(x: nat, y: nat, color: Pixel)  // the renderer stores one backbuffer pixel
    | Invalidate
    | PresentFrame(mapped: bool)           // whether the framebuffer could be mapped

  /** A presenter without a snapshot: every completed present copies the whole frame. */
  function Naive(s: Screens, op: Op): Screens {
    match op
    case Write(x, y, c) =>
      if y < |s.back| && x < |s.back[y]| then
        var row: seq<Pixel> := s.back[y][x := c];
        s.(back := s.back[y := row])
      else s
    case Invalidate => s
    case PresentFrame(mapped) => if mapped then s.(front := s.back) else s
  }

  function NaiveRun(s: Screens, ops: seq<Op>): Screens {
    if ops == [] then s else Naive(NaiveRun(s, ops[..|ops| - 1]), ops[|ops| - 1])
  }

  function Part(a: array2<Pixel>, w: nat, h: nat): (img: Image)
    requires h <= a.Length0 && w <= a.Length1
    reads a
    ensures |img| == h && forall y :: 0 <= y < h ==> |img[y]| == w
    ensures forall y, x :: 0 <= y < h && 0 <= x < w ==> img[y][x] == a[y, x]
  {
    seq(h, y requires 0 <= y < h reads a => seq(w, x requires 0 <= x < w reads a => a[y, x]))
  }

  lemma SameImage(a: Image, b: Image, w: nat)
    requires |a| == |b| && forall y :: 0 <= y < |a| ==> |a[y]| == w && |b[y]| == w
    requires forall y, x :: 0 <= y < |a| && 0 <= x < w ==> a[y][x] == b[y][x]
    ensures a == b
  {
    forall y | 0 <= y < |a| ensures a[y] == b[y] {}
  }

  // ----- The presenter ---------------------------------------------------------------------------

  class Presenter {
    const width: nat
    const height: nat
    const backbuffer: array2<Pixel>
    const snapshot: array2<Pixel>
    const front: array2<Pixel>  // the mapped framebuffer, one row per pitch
    var snapshotValid: bool

    ghost predicate Shaped() {
      && width <= FB_MAX_WIDTH && height <= FB_MAX_HEIGHT
      && backbuffer.Length0 == snapshot.Length0 == FB_MAX_HEIGHT
      && backbuffer.Length1 == snapshot.Length1 == FB_MAX_WIDTH
      && height <= front.Length0 && width <= front.Length1
      && backbuffer != snapshot && backbuffer != front && snapshot != front
    }

    /** A valid snapshot is what the screen shows. */
    ghost predicate Valid()
      reads this, snapshot, front
    {
      && Shaped()
      && (snapshotValid ==> forall y, x :: 0 <= y < height && 0 <= x < width ==> snapshot[y, x] == front[y, x])
    }

    ghost function Seen(): Screens
      requires Shaped()
      reads this, backbuffer, front
    {
      Screens(Part(backbuffer, width, height), Part(front, width, height))
    }

    constructor (width: nat, height: nat, front: array2<Pixel>)
      requires width <= FB_MAX_WIDTH && height <= FB_MAX_HEIGHT
      requires height <= front.Length0 && width <= front.Length1
      ensures Valid() && !snapshotValid && this.front == front
      ensures fresh(backbuffer) && fresh(snapshot)
    {
      this.width, this.height, this.front := width, height, front;
      backbuffer := new Pixel[FB_MAX_HEIGHT, FB_MAX_WIDTH]((_, _) => 0);
      snapshot := new Pixel[FB_MAX_HEIGHT, FB_MAX_WIDTH]((_, _) => 0);
      snapshotValid := false;
    }

    method InvalidateSnapshot()
      requires Valid()
      modifies this`snapshotValid
      ensures Valid() && !snapshotValid && Seen() == old(Seen())
    {
      snapshotValid := false;
    }

    method PutPixel(x: nat, y: nat, color: Pixel)
      requires Valid()
      modifies backbuffer
      ensures Valid() && Seen() == Naive(old(Seen()), Write(x, y, color))
    {
      if y < height && x < width {
        backbuffer[y, x] := color;
      }
      SameImage(Seen().back, Naive(old(Seen()), Write(x, y, color)).back, width);
      SameImage(Seen().front, old(Seen()).front, width);
    }

    /** The first and last pair of a row that differ from the snapshot, or -1 for both. */
    method DirtyPairs(y: nat) returns (first: int, last: int)
      requires Shaped() && y < height
      ensures first < 0 ==>
                forall x :: 0 <= x < width ==> backbuffer[y, x] == snapshot[y, x]
      ensures first >= 0 ==> first <= last < (width + 1) / 2
      ensures first >= 0 ==>
                forall x :: 0 <= x < width && !(2 * first <= x < 2 * last + 2) ==> backbuffer[y, x] == snapshot[y, x]
    {
      var pairs := (width + 1) / 2;
      first, last := -1, -1;
      for i := 0 to pairs
        invariant first == -1 <= last < i || 0 <= first <= last < i
        invariant forall x :: 0 <= x < 2 * i && !(first >= 0 && 2 * first <= x < 2 * last + 2) ==>
                    backbuffer[y, x] == snapshot[y, x]
      {
        if backbuffer[y, 2 * i] != snapshot[y, 2 * i] || backbuffer[y, 2 * i + 1] != snapshot[y, 2 * i + 1] {
          if first < 0 { first := i; }
          last := i;
        }
      }
    }

    /** Copies a span of a row to the framebuffer and to the snapshot. */
    method CopySpan(y: nat, start: nat, end: nat)
      requires Shaped() && y < height && start <= end <= width
      modifies front, snapshot
      ensures forall r, x :: 0 <= r < front.Length0 && 0 <= x < front.Length1 ==>
                front[r, x] == if r == y && start <= x < end then backbuffer[r, x] else old(front[r, x])
      ensures forall r, x :: 0 <= r < FB_MAX_HEIGHT && 0 <= x < FB_MAX_WIDTH ==>
                snapshot[r, x] == if r == y && start <= x < end then backbuffer[r, x] else old(snapshot[r, x])
    {
      for i := start to end
        invariant forall r, x :: 0 <= r < front.Length0 && 0 <= x < front.Length1 ==>
                    front[r, x] == if r == y && start <= x < i then backbuffer[r, x] else old(front[r, x])
        invariant forall r, x :: 0 <= r < FB_MAX_HEIGHT && 0 <= x < FB_MAX_WIDTH ==>
                    snapshot[r, x] == old(snapshot[r, x])
        modifies front
      {
        front[y, i] := backbuffer[y, i];
      }
      for i := start to end
        invariant forall r, x :: 0 <= r < FB_MAX_HEIGHT && 0 <= x < FB_MAX_WIDTH ==>
                    snapshot[r, x] == if r == y && start <= x < i then backbuffer[r, x] else old(snapshot[r, x])
        modifies snapshot
      {
        snapshot[y, i] := backbuffer[y, i];
      }
    }

    method PresentNow(mapped: bool)
      requires Valid()
      modifies this`snapshotValid, front, snapshot
      ensures Valid() && (mapped ==> snapshotValid)
      ensures Seen() == Naive(old(Seen()), PresentFrame(mapped))
      ensures forall r, x :: 0 <= r < front.Length0 && 0 <= x < front.Length1 ==>
                !(r < height && x < width) ==> front[r, x] == old(front[r, x])
    {
      if !mapped { return; }
      var full := !snapshotValid;
      for y := 0 to height
        invariant forall r, x :: 0 <= r < y && 0 <= x < width ==>
                    front[r, x] == backbuffer[r, x] && snapshot[r, x] == backbuffer[r, x]
        invariant forall r, x :: y <= r < height && 0 <= x < width ==>
                    front[r, x] == old(front[r, x]) && snapshot[r, x] == old(snapshot[r, x])
        invariant forall r, x :: 0 <= r < front.Length0 && 0 <= x < front.Length1 ==>
                    !(r < height && x < width) ==> front[r, x] == old(front[r, x])
        modifies front, snapshot
      {
        if full {
          CopySpan(y, 0, width);
        } else {
          var first, last := DirtyPairs(y);
          if first >= 0 {
            var start, end := first * 2, (last + 1) * 2;
            if end > width { end := width; }
            CopySpan(y, start, end);
          }
        }
      }
      snapshotValid := true;
      SameImage(Seen().back, old(Seen()).back, width);
      SameImage(Seen().front, Seen().back, width);
    }

    /** Any run shows exactly what whole-frame copies would show. */
    method Run(ops: seq<Op>)
      requires Valid()
      modifies this`snapshotValid, backbuffer, front, snapshot
      ensures Valid() && Seen() == NaiveRun(old(Seen()), ops)
      ensures ops != [] && ops[|ops| - 1] == PresentFrame(true) ==> Seen().front == Seen().back
    {
      for i := 0 to |ops|
        invariant Valid() && Seen() == NaiveRun(old(Seen()), ops[..i])
      {
        assert ops[..i + 1][..i] == ops[..i];
        match ops[i] {
          case Write(x, y, c) => PutPixel(x, y, c);
          case Invalidate => InvalidateSnapshot();
          case PresentFrame(mapped) => PresentNow(mapped);
        }
      }
      assert ops[..|ops|] == ops;
    }
  }

  /** Between completed presents the screen does not change. */
  lemma {:induction false} ScreenHolds(s: Screens, ops: seq<Op>, n: nat)
    requires n <= |ops| && forall i :: n <= i < |ops| ==> ops[i] != PresentFrame(true)
    ensures NaiveRun(s, ops).front == NaiveRun(s, ops[..n]).front
  {
    if n == |ops| {
      assert ops[..n] == ops;
    } else {
      var init := ops[..|ops| - 1];
      ScreenHolds(s, init, n);
      assert init[..n] == ops[..n];
    }
  }

  function LastWrite(ops: seq<Op>, x: nat, y: nat, was: Pixel): Pixel {
    if ops == [] then was
    else
      match ops[|ops| - 1]
      case Write(a, b, c) => if a == x && b == y then c else LastWrite(ops[..|ops| - 1], x, y, was)
      case _ => LastWrite(ops[..|ops| - 1], x, y, was)
  }

  /** Every pixel of the drawing has the colour last written to it. */
  lemma {:induction false} DrawingHoldsWrites(s: Screens, ops: seq<Op>, x: nat, y: nat)
    requires y < |s.back| && x < |s.back[y]|
    ensures var back := NaiveRun(s, ops).back;
            |back| == |s.back| && |back[y]| == |s.back[y]| && back[y][x] == LastWrite(ops, x, y, s.back[y][x])
  {
    if ops != [] { DrawingHoldsWrites(s, ops[..|ops| - 1], x, y); }
  }
}
