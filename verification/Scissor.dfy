/**
  The scissor stack of the software renderer (src/flush.c): each entry is the intersection of
  its rectangle with the entry below, so only the top one is consulted.
 */
module Scissor {
  import opened Machine

  const MAX_DEPTH := 8

  datatype Rect = Rect(x: int, y: int, w: int, h: int)

  predicate InRect(r: Rect, px: int, py: int) {
    r.x <= px < r.x + r.w && r.y <= py < r.y + r.h
  }

  function Intersect(p: Rect, r: Rect): Rect {
    var x, y := Max(p.x, r.x), Max(p.y, r.y);
    var x2, y2 := Min(p.x + p.w, r.x + r.w), Min(p.y + p.h, r.y + r.h);
    Rect(x, y, Max(0, x2 - x), Max(0, y2 - y))
  }

  function Top(stack: seq<Rect>): Rect
    requires stack != []
  {
    stack[|stack| - 1]
  }

  /** scissor_push and scissor_pop on the entries in use. */
  function Pushed(stack: seq<Rect>, r: Rect): (s: seq<Rect>)
    ensures |stack| <= MAX_DEPTH ==> |s| <= MAX_DEPTH
  {
    if |stack| >= MAX_DEPTH then stack
    else stack + [if stack == [] then r else Intersect(Top(stack), r)]
  }

  function Popped<T>(stack: seq<T>): (s: seq<T>)
    ensures |s| <= |stack|
  {
    if stack == [] then [] else stack[..|stack| - 1]
  }

  /** scissor_contains. */
  predicate Passes(stack: seq<Rect>, px: int, py: int) {
    stack == [] || InRect(Top(stack), px, py)
  }

  lemma IntersectIsBoth(p: Rect, r: Rect, px: int, py: int)
    ensures InRect(Intersect(p, r), px, py) <==> InRect(p, px, py) && InRect(r, px, py)
  {}

  // ----- Sequences of pushes and pops ----------------------------------------------------------

  datatype Command = Push(r: Rect) | Pop

  function Init<T>(s: seq<T>): seq<T>
    requires s != []
  {
    s[..|s| - 1]
  }

  /** The entries the renderer holds after the commands. */
  function Entries(cmds: seq<Command>): (s: seq<Rect>)
    ensures |s| <= MAX_DEPTH
  {
    if cmds == [] then []
    else
      match cmds[|cmds| - 1]
      case Push(r) => Pushed(Entries(Init(cmds)), r)
      case Pop => Popped(Entries(Init(cmds)))
  }

  /** Positions of pushes, in order. */
  ghost predicate PushesAt(cmds: seq<Command>, at: seq<nat>) {
    && (forall i :: 0 <= i < |at| ==> at[i] < |cmds| && cmds[at[i]].Push?)
    && (forall i, j :: 0 <= i < j < |at| ==> at[i] < at[j])
  }

  /** The pushes whose rectangles are open: every pop closes the latest. */
  ghost function Open(cmds: seq<Command>): (at: seq<nat>)
    ensures PushesAt(cmds, at)
  {
    if cmds == [] then []
    else if cmds[|cmds| - 1].Push? then Open(Init(cmds)) + [|cmds| - 1]
    else Popped(Open(Init(cmds)))
  }

  /** How deep the open rectangles were nested at most since none was open. */
  ghost function Deepest(cmds: seq<Command>): (d: nat)
    ensures |Open(cmds)| <= d && (Open(cmds) == [] ==> d == 0)
  {
    if cmds == [] || Open(cmds) == [] then 0
    else if Deepest(Init(cmds)) > |Open(cmds)| then Deepest(Init(cmds)) else |Open(cmds)|
  }

  ghost predicate InAll(cmds: seq<Command>, at: seq<nat>, px: int, py: int)
    requires PushesAt(cmds, at)
  {
    forall i :: 0 <= i < |at| ==> InRect(cmds[at[i]].r, px, py)
  }

  // ----- The pushes the entries stand for --------------------------------------------------------

  /** A push onto a full stack is lost, but a pop still takes an entry. */
  ghost function Kept(cmds: seq<Command>): (at: seq<nat>)
    ensures PushesAt(cmds, at) && |at| <= MAX_DEPTH
  {
    if cmds == [] then []
    else
      var before := Kept(Init(cmds));
      if cmds[|cmds| - 1].Pop? then Popped(before)
      else if |before| >= MAX_DEPTH then before
      else before + [|cmds| - 1]
  }

  /** The entries `es` stand for the pushes `at`, depth by depth. */
  ghost predicate Stand(es: seq<Rect>, cmds: seq<Command>, at: seq<nat>) {
    && |es| == |at| && PushesAt(cmds, at)
    && forall n, px, py :: 0 <= n <= |at| ==> (Passes(es[..n], px, py) <==> InAll(cmds, at[..n], px, py))
  }

  lemma InOneMore(cmds: seq<Command>, at: seq<nat>, r: Rect, px: int, py: int)
    requires PushesAt(cmds, at)
    ensures PushesAt(cmds + [Push(r)], at + [|cmds|])
    ensures InAll(cmds + [Push(r)], at + [|cmds|], px, py) <==> InAll(cmds, at, px, py) && InRect(r, px, py)
  {
    var at' := at + [|cmds|];
    assert forall i :: 0 <= i < |at| ==> at'[i] == at[i];
    assert at'[|at|] == |cmds|;
  }

  lemma PassesOneMore(es: seq<Rect>, r: Rect, px: int, py: int)
    requires |es| < MAX_DEPTH
    ensures Passes(Pushed(es, r), px, py) <==> Passes(es, px, py) && InRect(r, px, py)
  {
    if es != [] { IntersectIsBoth(Top(es), r, px, py); }
  }

  lemma PushStands(es: seq<Rect>, cmds: seq<Command>, at: seq<nat>, r: Rect)
    requires Stand(es, cmds, at) && |es| < MAX_DEPTH
    ensures Stand(Pushed(es, r), cmds + [Push(r)], at + [|cmds|])
  {
    hide Passes, InAll;
    var es', cmds', at' := Pushed(es, r), cmds + [Push(r)], at + [|cmds|];
    InOneMore(cmds, at, r, 0, 0);
    PopStands(es, cmds, at, Push(r));
    forall n, px, py | 0 <= n <= |at'|
      ensures PushesAt(cmds', at'[..n]) && (Passes(es'[..n], px, py) <==> InAll(cmds', at'[..n], px, py))
    {
      if n <= |at| {
        assert es'[..n] == es[..n] && at'[..n] == at[..n];
      } else {
        assert es[..|at|] == es && at[..|at|] == at && es'[..n] == es' && at'[..n] == at';
        InOneMore(cmds, at, r, px, py);
        PassesOneMore(es, r, px, py);
      }
    }
  }

  lemma PopStands(es: seq<Rect>, cmds: seq<Command>, at: seq<nat>, c: Command)
    requires Stand(es, cmds, at)
    ensures Stand(Popped(es), cmds + [c], Popped(at)) && Stand(es, cmds + [c], at)
  {
    forall n, px, py | 0 <= n <= |at|
      ensures Passes(es[..n], px, py) <==> InAll(cmds + [c], at[..n], px, py)
    {
      assert Passes(es[..n], px, py) <==> InAll(cmds, at[..n], px, py);
    }
    forall n | 0 <= n <= |Popped(at)|
      ensures Popped(es)[..n] == es[..n] && Popped(at)[..n] == at[..n]
    {}
  }

  lemma {:induction false} EntriesStand(cmds: seq<Command>)
    ensures Stand(Entries(cmds), cmds, Kept(cmds))
  {
    if cmds != [] {
      hide Stand, Pushed, Popped;
      var init, c := Init(cmds), cmds[|cmds| - 1];
      assert cmds == init + [c];
      EntriesStand(init);
      StandSize(Entries(init), init, Kept(init));
      if c.Push? && |Kept(init)| < MAX_DEPTH {
        PushStands(Entries(init), init, Kept(init), c.r);
      } else {
        PopStands(Entries(init), init, Kept(init), c);
        if c.Push? { FullKeeps(Entries(init), c.r); }
      }
    } else {
      assert forall px, py :: Passes([], px, py);
    }
  }

  lemma StandSize(es: seq<Rect>, cmds: seq<Command>, at: seq<nat>)
    requires Stand(es, cmds, at)
    ensures |es| == |at|
  {}

  lemma FullKeeps(es: seq<Rect>, r: Rect)
    requires |es| >= MAX_DEPTH
    ensures Pushed(es, r) == es
  {}

  /** The scissor shows the pushes kept. */
  lemma PassesIffInKept(cmds: seq<Command>, px: int, py: int)
    ensures Passes(Entries(cmds), px, py) <==> InAll(cmds, Kept(cmds), px, py)
  {
    hide Entries, Kept, Passes, InAll;
    EntriesStand(cmds);
    var n := |Kept(cmds)|;
    assert Entries(cmds)[..n] == Entries(cmds) && Kept(cmds)[..n] == Kept(cmds);
  }

  lemma {:induction false} KeptIsOpen(cmds: seq<Command>)
    ensures forall p :: p in Kept(cmds) ==> p in Open(cmds)
  {
    if cmds != [] {
      KeptIsOpen(Init(cmds));
      var kept, open := Kept(Init(cmds)), Open(Init(cmds));
      if cmds[|cmds| - 1].Pop? && kept != [] {
        assert kept[|kept| - 1] in open;
        forall p | p in Popped(kept) ensures p in Popped(open) {
          assert p in open && p < kept[|kept| - 1] <= open[|open| - 1];
        }
      }
    }
  }

  /** While the nesting is at most eight deep no push is lost. */
  lemma {:induction false} ShallowKeepsAll(cmds: seq<Command>)
    requires Deepest(cmds) <= MAX_DEPTH
    ensures Kept(cmds) == Open(cmds)
  {
    if Open(cmds) == [] {
      KeptIsOpen(cmds);
      if Kept(cmds) != [] { assert Kept(cmds)[0] in Kept(cmds); assert false; }
    } else {
      ShallowKeepsAll(Init(cmds));
    }
  }

  lemma LostByPop(kept: seq<nat>, open: seq<nat>, lost: nat) returns (still: nat)
    requires lost in open && lost !in kept && |open| > 1
    requires forall i, j :: 0 <= i < j < |open| ==> open[i] < open[j]
    requires forall i, j :: 0 <= i < j < |kept| ==> kept[i] < kept[j]
    requires forall p :: p in kept ==> p in open
    ensures still in Popped(open) && still !in Popped(kept)
  {
    var top := open[|open| - 1];
    still := if lost != top then lost else if kept == [] then open[0] else kept[|kept| - 1];
    assert forall p :: p in open && p != top ==> p in Popped(open);
    assert kept != [] ==> kept[|kept| - 1] !in Popped(kept);
    assert forall p :: p in Popped(kept) ==> p in kept;
    assert kept != [] ==> kept[|kept| - 1] in kept;
    assert open[0] in Popped(open) by { assert Popped(open)[0] == open[0]; }
  }

  lemma DeepPush(cmds: seq<Command>, r: Rect)
    ensures var after := cmds + [Push(r)];
            && Open(after) == Open(cmds) + [|cmds|]
            && Kept(after) == (if |Kept(cmds)| >= MAX_DEPTH then Kept(cmds) else Kept(cmds) + [|cmds|])
            && Deepest(after) == if Deepest(cmds) > |Open(cmds)| then Deepest(cmds) else |Open(cmds)| + 1
  {
    hide PushesAt;
    assert Init(cmds + [Push(r)]) == cmds;
  }

  lemma DeepPop(cmds: seq<Command>)
    ensures var after := cmds + [Pop];
            && Open(after) == Popped(Open(cmds)) && Kept(after) == Popped(Kept(cmds))
            && Deepest(after) == if |Open(cmds)| <= 1 then 0 else Deepest(cmds)
  {
    hide PushesAt;
    assert Init(cmds + [Pop]) == cmds;
  }

  /** Once it was deeper, some open rectangle is lost until none is open. */
  lemma {:induction false} DeepLosesOne(cmds: seq<Command>) returns (lost: nat)
    requires Deepest(cmds) > MAX_DEPTH
    ensures lost in Open(cmds) && lost !in Kept(cmds)
  {
    hide Open, Kept, Deepest, Popped;
    NothingDeep();
    var init, c := Init(cmds), cmds[|cmds| - 1];
    assert cmds == init + [c];
    if c.Push? {
      DeepPush(init, c.r);
      if |Kept(init)| >= MAX_DEPTH {
        lost := |init|;
        assert Open(cmds)[|Open(init)|] == lost;
      } else {
        if Deepest(init) <= MAX_DEPTH { ShallowKeepsAll(init); }
        lost := DeepLosesOne(init);
      }
    } else {
      DeepPop(init);
      lost := DeepLosesOne(init);
      KeptIsOpen(init);
      lost := LostByPop(Kept(init), Open(init), lost);
    }
  }

  lemma NothingDeep()
    ensures Deepest([]) == 0
  {}

  // ----- What the scissor shows --------------------------------------------------------------------

  /** A pixel that lies in every open rectangle always passes. */
  lemma NeverHidesOpen(cmds: seq<Command>, px: int, py: int)
    requires InAll(cmds, Open(cmds), px, py)
    ensures Passes(Entries(cmds), px, py)
  {
    hide Entries, Passes, Open, Kept;
    PassesIffInKept(cmds, px, py);
    KeptIsOpen(cmds);
    forall i | 0 <= i < |Kept(cmds)| ensures InRect(cmds[Kept(cmds)[i]].r, px, py) {
      assert Kept(cmds)[i] in Open(cmds);
    }
  }

  lemma PassesIffInEveryOpen(cmds: seq<Command>, px: int, py: int)
    requires Deepest(cmds) <= MAX_DEPTH
    ensures Passes(Entries(cmds), px, py) <==> InAll(cmds, Open(cmds), px, py)
  {
    hide *;
    PassesIffInKept(cmds, px, py);
    ShallowKeepsAll(cmds);
  }

  /** The same pushes and pops, of any rectangles. */
  ghost predicate SameShape(cmds: seq<Command>, other: seq<Command>) {
    |cmds| == |other| && forall i :: 0 <= i < |cmds| ==> (cmds[i].Push? <==> other[i].Push?)
  }

  lemma {:induction false} ShapeDecides(cmds: seq<Command>, other: seq<Command>)
    requires SameShape(cmds, other)
    ensures Open(cmds) == Open(other) && Kept(cmds) == Kept(other) && Deepest(cmds) == Deepest(other)
  {
    if cmds != [] { ShapeDecides(Init(cmds), Init(other)); }
  }

  /** The same commands with all rectangles alike but one, which is empty. */
  function OneEmpty(cmds: seq<Command>, empty: nat): (other: seq<Command>)
    ensures SameShape(cmds, other)
  {
    seq(|cmds|, i requires 0 <= i < |cmds| =>
      if cmds[i].Pop? then Pop else Push(if i == empty then Rect(0, 0, 0, 0) else Rect(0, 0, 1, 1)))
  }

  ghost predicate ShowsOpen(cmds: seq<Command>) {
    forall px, py :: Passes(Entries(cmds), px, py) <==> InAll(cmds, Open(cmds), px, py)
  }

  /**
    A drawing routine's pushes and pops clip as intended, whatever their rectangles, if and only if
    they have nested at most eight deep since nothing was open.
   */
  lemma ScissorExactly(cmds: seq<Command>)
    ensures (forall other :: SameShape(cmds, other) ==> ShowsOpen(other)) <==> Deepest(cmds) <= MAX_DEPTH
  {
    hide Entries, Passes, Open, Kept, Deepest;
    if Deepest(cmds) <= MAX_DEPTH {
      forall other | SameShape(cmds, other) ensures ShowsOpen(other) {
        ShapeDecides(cmds, other);
        forall px, py ensures Passes(Entries(other), px, py) <==> InAll(other, Open(other), px, py) {
          PassesIffInEveryOpen(other, px, py);
        }
      }
    } else {
      var lost := DeepLosesOne(cmds);
      var other := OneEmpty(cmds, lost);
      ShapeDecides(cmds, other);
      PassesIffInKept(other, 0, 0);
      assert Passes(Entries(other), 0, 0);
      assert !InRect(other[lost].r, 0, 0) && !InAll(other, Open(other), 0, 0);
      assert !ShowsOpen(other);
    }
  }
}
