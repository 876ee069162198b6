/**
  rui_present of tools/ridux_native_ui.c, with its framebuffer bookkeeping, on all success and
  failure branches.  The answers of the display stack are parameters; every call it receives is
  entered in a ledger, which stays legal.
 */
module FrameOutput {
  import opened Ledger

  datatype Option<T> = None | Some(value: T)

  /** A buffer with its framebuffer id. */
  datatype Fb = Fb(bo: Option<Bo>, id: FbId, cached: bool)

  const NO_FB := Fb(None, 0, false)

  function BosOf(fb: Fb): set<Bo> {
    if fb.bo.Some? then {fb.bo.value} else {}
  }

  /** The ids that only this record knows. */
  function OwnIds(fb: Fb): set<FbId> {
    if fb.bo.Some? && !fb.cached then {fb.id} else {}
  }

  /** What the ledger says of the display: flips lost, the id shown, and whether its event is missing. */
  datatype Screen = Screen(flipLost: bool, shown: FbId, eventMissing: bool)

  function OnDisplay(calls: seq<Call>): Screen {
    Screen(FlipLost(calls), Shown(calls), EventMissing(calls))
  }

  function ShownBy(s: Screen, call: Call): Screen
    requires call.SetCrtc? || call.Flip? || call.FlipTimeout?
  {
    if call.FlipTimeout? then Screen(true, s.shown, true)
    else if call.ok then Screen(s.flipLost, call.id, false)
    else Screen(s.flipLost || call.Flip?, s.shown, s.eventMissing)
  }

  /** The record agrees with the ledger. */
  ghost predicate Known(calls: seq<Call>, fb: Fb) {
    fb == NO_FB || (
      && fb.bo.Some? && fb.id != 0 && fb.bo.value in Locked(calls) && fb.id in Live(calls)
      && if fb.cached then fb.bo.value in Cached(calls) && Cached(calls)[fb.bo.value] == fb.id
         else fb.bo.value !in Cached(calls) && fb.id !in Cached(calls).Values)
  }

  /** The two records are all that is locked, and with the cached ids all that exists. */
  ghost predicate Accounted(calls: seq<Call>, a: Fb, b: Fb) {
    && Legal(calls) && Known(calls, a) && Known(calls, b)
    && (a != NO_FB && b != NO_FB ==> a.bo != b.bo && a.id != b.id)
    && Locked(calls) == BosOf(a) + BosOf(b)
    && Live(calls) == Cached(calls).Values + OwnIds(a) + OwnIds(b)
  }

  lemma CacheValues(m: map<Bo, FbId>, bo: Bo, id: FbId)
    requires bo !in m
    ensures m[bo := id].Values == m.Values + {id}
  {
    var n := m[bo := id];
    assert n[bo] == id;
    forall v | v in m.Values ensures v in n.Values {
      var k :| k in m && m[k] == v;
      assert n[k] == v;
    }
  }

  lemma AddAccounted(calls: seq<Call>, front: Fb, bo: Bo, id: FbId, cached: bool)
    requires Legal(calls) && Known(calls, front) && front.bo != Some(bo)
    requires Locked(calls) == BosOf(front) + {bo} && Live(calls) == Cached(calls).Values + OwnIds(front)
    requires bo !in Cached(calls) && id != 0 && id !in Live(calls)
    ensures InOrder(calls, Add(bo, id, cached))
    ensures Accounted(calls + [Add(bo, id, cached)], front, Fb(Some(bo), id, cached))
  {
    Extend(calls, Add(bo, id, cached));
    CacheValues(Cached(calls), bo, id);
    CachedIdsLive(calls);
    CachedIdsLive(calls + [Add(bo, id, cached)]);
  }

  lemma ReuseAccounted(calls: seq<Call>, front: Fb, bo: Bo)
    requires Legal(calls) && Known(calls, front) && front.bo != Some(bo)
    requires Locked(calls) == BosOf(front) + {bo} && Live(calls) == Cached(calls).Values + OwnIds(front)
    requires bo in Cached(calls)
    ensures Accounted(calls, front, Fb(Some(bo), Cached(calls)[bo], true))
  {
    CachedIdsLive(calls);
    assert Cached(calls)[bo] in Cached(calls).Values;
  }

  /** The calls of rui_release_fb. */
  function ReleaseCalls(fb: Fb): seq<Call> {
    if fb.bo.None? then []
    else if fb.id != 0 && !fb.cached then [Remove(fb.id), Release(fb.bo.value)]
    else [Release(fb.bo.value)]
  }

  lemma ReleaseAccounted(calls: seq<Call>, fb: Fb, kept: Fb)
    requires Accounted(calls, fb, kept)
    ensures Accounted(calls + ReleaseCalls(fb), kept, NO_FB)
    ensures OnDisplay(calls + ReleaseCalls(fb)) == OnDisplay(calls)
    ensures Cached(calls + ReleaseCalls(fb)) == Cached(calls)
  {
    if fb == NO_FB {
      assert calls + ReleaseCalls(fb) == calls;
    } else if !fb.cached {
      Extend(calls, Remove(fb.id));
      var mid := calls + [Remove(fb.id)];
      Extend(mid, Release(fb.bo.value));
      var end := mid + [Release(fb.bo.value)];
      assert calls + ReleaseCalls(fb) == end;
      assert Cached(end) == Cached(mid) == Cached(calls);
      assert OnDisplay(end) == OnDisplay(mid) == OnDisplay(calls);
      assert Live(end) == Live(mid) == Live(calls) - {fb.id};
      assert Locked(end) == Locked(calls) - {fb.bo.value};
    } else {
      Extend(calls, Release(fb.bo.value));
      assert fb.id in Cached(calls).Values;
    }
  }

  lemma SwapRecords(calls: seq<Call>, a: Fb, b: Fb)
    requires Accounted(calls, a, b)
    ensures Accounted(calls, b, a)
  {}

  /** A mode-setting or flip call changes nothing that the records describe. */
  lemma ShowAccounted(calls: seq<Call>, a: Fb, b: Fb, call: Call)
    requires Accounted(calls, a, b) && InOrder(calls, call) && (call.SetCrtc? || call.Flip? || call.FlipTimeout?)
    ensures Accounted(calls + [call], a, b)
    ensures Cached(calls + [call]) == Cached(calls)
    ensures OnDisplay(calls + [call]) == ShownBy(OnDisplay(calls), call)
  {
    Extend(calls, call);
  }

  /** What the display stack answers during one present. */
  datatype Answers = Answers(
    swapOk: bool,
    front: Option<Bo>,    // the buffer to lock, if any
    addOk: bool, newId: FbId,
    allocOk: bool,        // whether there was memory to cache the id
    crtcOk: bool,
    syncFlip: bool, flipOk: bool, eventOk: bool)

  /**
    What the display is asked for one framebuffer: a mode when there is no flip to be had, else a
    flip, and a mode after all when the flip is refused.
   */
  predicate Tried(asked: seq<Call>, id: FbId, ans: Answers, setsMode: bool) {
    if setsMode then SetCrtc(id, ans.crtcOk) in asked && forall c :: c in asked ==> !c.Flip?
    else
      && Flip(id, ans.flipOk) in asked
      && (if ans.flipOk then forall c :: c in asked ==> !c.SetCrtc? else SetCrtc(id, ans.crtcOk) in asked)
  }

  /** Nothing of the display is asked. */
  predicate Quiet(asked: seq<Call>) {
    forall c :: c in asked ==> !c.Flip? && !c.SetCrtc?
  }

  lemma TriedAfter(before: seq<Call>, asked: seq<Call>, id: FbId, ans: Answers, setsMode: bool)
    requires Tried(asked, id, ans, setsMode) && Quiet(before)
    ensures Tried(before + asked, id, ans, setsMode)
  {}

  lemma TriedMode(before: seq<Call>, left: Fb, id: FbId, ans: Answers)
    ensures var calls := before + [SetCrtc(id, ans.crtcOk)] + ReleaseCalls(left);
            Tried(calls[|before|..], id, ans, true)
  {
    var asked := [SetCrtc(id, ans.crtcOk)] + ReleaseCalls(left);
    assert (before + [SetCrtc(id, ans.crtcOk)] + ReleaseCalls(left))[|before|..] == asked;
    assert asked[0] in asked;
  }

  lemma TriedBoth(before: seq<Call>, left: Fb, id: FbId, ans: Answers)
    requires !ans.flipOk
    ensures var calls := before + [Flip(id, ans.flipOk)] + [SetCrtc(id, ans.crtcOk)] + ReleaseCalls(left);
            Tried(calls[|before|..], id, ans, false)
  {
    var calls := before + [Flip(id, ans.flipOk)] + [SetCrtc(id, ans.crtcOk)] + ReleaseCalls(left);
    var asked := [Flip(id, ans.flipOk), SetCrtc(id, ans.crtcOk)] + ReleaseCalls(left);
    assert calls[|before|..] == asked;
    assert asked[0] in asked && asked[1] in asked;
  }

  lemma TriedFlip(before: seq<Call>, lost: seq<Call>, left: Fb, id: FbId, ans: Answers)
    requires ans.flipOk && (lost == [] || lost == [FlipTimeout])
    ensures var calls := before + [Flip(id, ans.flipOk)] + lost + ReleaseCalls(left);
            Tried(calls[|before|..], id, ans, false)
  {
    var calls := before + [Flip(id, ans.flipOk)] + lost + ReleaseCalls(left);
    var asked := [Flip(id, ans.flipOk)] + lost + ReleaseCalls(left);
    assert calls[|before|..] == asked;
    assert asked[0] in asked;
  }

  class Output {
    var front: Fb
    var pageFlipOk: bool
    var firstFrame: bool
    var frame: nat
    var calls: seq<Call>

    /**
      Between presents exactly the front buffer is locked, or none; and the display shows it,
      unless the event of the last flip that the display accepted never came.
     */
    ghost predicate Valid()
      reads this
    {
      && Accounted(calls, front, NO_FB) && pageFlipOk == !FlipLost(calls)
      && (Shown(calls) == front.id <==> !EventMissing(calls))
    }

    /** A buffer is not handed out while locked, and a new id is not one that exists. */
    ghost predicate Sound(ans: Answers)
      reads this
    {
      && (ans.front.Some? ==> ans.front.value !in Locked(calls))
      && ans.newId != 0 && ans.newId !in Live(calls)
    }

    /** There will be a framebuffer for the next buffer. */
    ghost predicate HasNext(ans: Answers)
      reads this
    {
      ans.swapOk && ans.front.Some? && (ans.front.value in Cached(calls) || ans.addOk)
    }

    /** That framebuffer: the cached one, or a new one. */
    ghost function Next(ans: Answers): Fb
      requires HasNext(ans)
      reads this
    {
      var bo, cached := ans.front.value, Cached(calls);
      if bo in cached then Fb(Some(bo), cached[bo], true) else Fb(Some(bo), ans.newId, ans.allocOk)
    }

    /** The cached ids once there is such a framebuffer. */
    ghost function NextCached(ans: Answers): map<Bo, FbId>
      reads this
    {
      if HasNext(ans) && Next(ans).cached then Cached(calls)[ans.front.value := Next(ans).id] else Cached(calls)
    }

    predicate SetsMode()
      reads this
    {
      firstFrame || front.id == 0 || !pageFlipOk
    }

    /** The display accepts a flip to the next buffer, and the event is waited for in vain. */
    predicate LosesEvent(ans: Answers)
      reads this
    {
      !SetsMode() && ans.flipOk && ans.syncFlip && !ans.eventOk
    }

    predicate Displays(ans: Answers)
      reads this
    {
      if SetsMode() || !ans.flipOk then ans.crtcOk else !ans.syncFlip || ans.eventOk
    }

    constructor ()
      ensures Valid() && front == NO_FB && calls == [] && firstFrame && pageFlipOk
    {
      front, pageFlipOk, firstFrame, frame, calls := NO_FB, true, true, 0, [];
    }

    /** rui_add_fb_for_bo on the buffer just locked. */
    method AddFbForBo(bo: Bo, ans: Answers) returns (ok: bool, fb: Fb)
      requires Legal(calls) && Known(calls, front) && front.bo != Some(bo)
      requires Locked(calls) == BosOf(front) + {bo} && Live(calls) == Cached(calls).Values + OwnIds(front)
      requires ans.newId != 0 && ans.newId !in Live(calls)
      modifies this`calls
      ensures ok <==> bo in old(Cached(calls)) || ans.addOk
      ensures ok ==> Accounted(calls, front, fb)
      ensures ok ==> fb == if bo in old(Cached(calls)) then Fb(Some(bo), old(Cached(calls))[bo], true)
                           else Fb(Some(bo), ans.newId, ans.allocOk)
      ensures calls == if bo in old(Cached(calls)) || !ans.addOk then old(calls)
                       else old(calls) + [Add(bo, ans.newId, ans.allocOk)]
    {
      if bo in Cached(calls) {
        ReuseAccounted(calls, front, bo);
        return true, Fb(Some(bo), Cached(calls)[bo], true);
      }
      if !ans.addOk { return false, Fb(Some(bo), 0, false); }
      AddAccounted(calls, front, bo, ans.newId, ans.allocOk);
      calls := calls + [Add(bo, ans.newId, ans.allocOk)];
      return true, Fb(Some(bo), ans.newId, ans.allocOk);
    }

    /** rui_release_fb. */
    method ReleaseFb(fb: Fb, ghost kept: Fb)
      requires Accounted(calls, fb, kept)
      modifies this`calls
      ensures Accounted(calls, kept, NO_FB) && calls == old(calls) + ReleaseCalls(fb)
      ensures OnDisplay(calls) == old(OnDisplay(calls)) && Cached(calls) == old(Cached(calls))
    {
      ReleaseAccounted(calls, fb, kept);
      ghost var before := calls;
      if fb.id != 0 && !fb.cached { calls := calls + [Remove(fb.id)]; }
      if fb.bo.Some? { calls := calls + [Release(fb.bo.value)]; }
      assert calls == before + ReleaseCalls(fb);
    }

    /** The next buffer becomes the front one. */
    method Adopt(next: Fb)
      requires next != NO_FB && Accounted(calls, front, next)
      modifies this`calls, this`front
      ensures Accounted(calls, front, NO_FB) && front == next
      ensures OnDisplay(calls) == old(OnDisplay(calls)) && Cached(calls) == old(Cached(calls))
      ensures calls == old(calls) + ReleaseCalls(old(front))
    {
      ReleaseFb(front, next);
      front := next;
    }

    method Show(next: Fb, call: Call)
      requires Accounted(calls, front, next) && InOrder(calls, call)
               && (call.SetCrtc? || call.Flip? || call.FlipTimeout?)
      modifies this`calls
      ensures Accounted(calls, front, next) && calls == old(calls) + [call]
      ensures OnDisplay(calls) == ShownBy(old(OnDisplay(calls)), call) && Cached(calls) == old(Cached(calls))
    {
      ShowAccounted(calls, front, next, call);
      calls := calls + [call];
    }

    /** The first half of rui_present: a framebuffer for what was just drawn, if there is one. */
    method NextFb(ans: Answers) returns (found: bool, next: Fb)
      requires Valid() && Sound(ans)
      modifies this`calls
      ensures found <==> old(HasNext(ans))
      ensures OnDisplay(calls) == old(OnDisplay(calls)) && Cached(calls) == old(NextCached(ans))
      ensures old(calls) <= calls && Quiet(calls[|old(calls)|..])
      ensures if found then next == old(Next(ans)) && next.id != front.id && Accounted(calls, front, next)
              else Accounted(calls, front, NO_FB)
    {
      if !ans.swapOk || ans.front.None? { return false, NO_FB; }
      var bo := ans.front.value;
      LockAccounted(calls, front, bo);
      calls := calls + [Lock(bo)];
      found, next := AddFbForBo(bo, ans);
      AddKeepsShown(old(calls), bo, ans);
      if !found {
        UnlockAccounted(calls, front, bo);
        calls := calls + [Release(bo)];
      }
    }

    /** drmModeSetCrtc with the next buffer, which is adopted or given up. */
    method SetMode(next: Fb, ans: Answers) returns (ok: bool)
      requires next != NO_FB && Accounted(calls, front, next)
      modifies this`calls, this`front
      ensures Accounted(calls, front, NO_FB) && ok == ans.crtcOk && front == if ok then next else old(front)
      ensures OnDisplay(calls) == ShownBy(old(OnDisplay(calls)), SetCrtc(next.id, ans.crtcOk))
      ensures Cached(calls) == old(Cached(calls))
      ensures calls == old(calls) + [SetCrtc(next.id, ans.crtcOk)] + ReleaseCalls(if ok then old(front) else next)
    {
      hide Accounted, Known, OnDisplay, Cached, ReleaseCalls;
      DisplayableNext(calls, front, next);
      Show(next, SetCrtc(next.id, ans.crtcOk));
      ok := ans.crtcOk;
      if !ok {
        SwapRecords(calls, front, next);
        ReleaseFb(next, front);
        return;
      }
      Adopt(next);
    }

    /** Displays the next buffer, by mode setting or by a page flip. */
    method Display(next: Fb, ans: Answers) returns (ok: bool)
      requires next != NO_FB && Accounted(calls, front, next) && pageFlipOk == !FlipLost(calls)
      modifies this`calls, this`front, this`pageFlipOk
      ensures Accounted(calls, front, NO_FB) && pageFlipOk == !FlipLost(calls)
      ensures pageFlipOk <==> old(pageFlipOk && !(!SetsMode() && (!ans.flipOk || LosesEvent(ans))))
      ensures ok <==> old(Displays(ans))
      ensures front == if ok then next else old(front)
      ensures if ok then Shown(calls) == next.id && !EventMissing(calls)
              else if old(LosesEvent(ans)) then Shown(calls) == next.id && EventMissing(calls)
              else Shown(calls) == old(Shown(calls)) && EventMissing(calls) == old(EventMissing(calls))
      ensures Cached(calls) == old(Cached(calls))
      ensures old(calls) <= calls && Tried(calls[|old(calls)|..], next.id, ans, old(SetsMode()))
    {
      hide Accounted, Known, Shown, FlipLost, EventMissing, Cached, ReleaseCalls, Tried, Quiet;
      DisplayableNext(calls, front, next);
      ghost var before, was := calls, front;
      if firstFrame || front.id == 0 || !pageFlipOk {
        ok := SetMode(next, ans);
        TriedMode(before, if ok then was else next, next.id, ans);
        return;
      }
      Show(next, Flip(next.id, ans.flipOk));
      if !ans.flipOk {
        pageFlipOk := false;
        ok := SetMode(next, ans);
        TriedBoth(before, if ok then was else next, next.id, ans);
        return;
      }
      if ans.syncFlip && !ans.eventOk {
        EndsInFlip(calls, next.id);
        Show(next, FlipTimeout);
        pageFlipOk := false;
        SwapRecords(calls, front, next);
        ReleaseFb(next, front);
        TriedFlip(before, [FlipTimeout], next, next.id, ans);
        return false;
      }
      Adopt(next);
      TriedFlip(before, [], was, next.id, ans);
      assert before + [Flip(next.id, true)] + [] == before + [Flip(next.id, true)];
      return true;
    }

    /** rui_present. */
    method Present(ans: Answers) returns (ok: bool)
      requires Valid() && Sound(ans)
      modifies this
      ensures Valid()
      ensures ok <==> old(HasNext(ans) && Displays(ans))
      ensures if ok then front == old(Next(ans)) && frame == old(frame) + 1 && !firstFrame
              else front == old(front) && frame == old(frame) && firstFrame == old(firstFrame)
      ensures pageFlipOk <==> old(pageFlipOk && !(HasNext(ans) && !SetsMode() && (!ans.flipOk || LosesEvent(ans))))
      ensures Cached(calls) == old(NextCached(ans))
      ensures old(calls) <= calls
      ensures old(HasNext(ans)) ==> Tried(calls[|old(calls)|..], old(Next(ans)).id, ans, old(SetsMode()))
      // when the display comes to show something else than the front buffer, and what
      ensures Shown(calls) == front.id <==>
              ok || (old(Shown(calls) == front.id) && !old(HasNext(ans) && LosesEvent(ans)))
      ensures old(HasNext(ans) && LosesEvent(ans)) ==>
                && Shown(calls) == old(Next(ans)).id && ans.front.value !in Locked(calls)
                && (Shown(calls) in Live(calls) <==> old(Next(ans)).cached)
    {
      hide Accounted, Known, Shown, FlipLost, EventMissing, Locked, Live, Cached, Legal, Tried;
      var found, next := NextFb(ans);
      if !found { return false; }
      ghost var before := calls;
      ok := Display(next, ans);
      TriedAfter(before[|old(calls)|..], calls[|before|..], next.id, ans, old(SetsMode()));
      assert calls[|old(calls)|..] == before[|old(calls)|..] + calls[|before|..];
      if ok {
        firstFrame := false;
        frame := frame + 1;
      } else {
        Abandoned(before, calls, front, next);
      }
    }

    /** rui_close: the front buffer is released, and destroying the surface drops the cached ids. */
    method Close()
      requires Valid()
      modifies this
      ensures Legal(calls) && Locked(calls) == {} && Live(calls) == {} && front == NO_FB
      ensures forall id :: Adds(calls, id) == Removals(calls, id)
      ensures forall bo :: Locks(calls, bo) == Releases(calls, bo)
    {
      hide Accounted;
      ReleaseFb(front, NO_FB);
      front := NO_FB;
      while Cached(calls).Keys != {}
        invariant Accounted(calls, NO_FB, NO_FB) && front == NO_FB
        decreases Cached(calls).Keys
      {
        var bo :| bo in Cached(calls).Keys;
        DropAccounted(calls, bo);
        calls := calls + [Drop(bo)];
      }
      NothingLeft(calls);
      forall id ensures Adds(calls, id) == Removals(calls, id) { AddsMatchRemovals(calls, id); }
      forall bo ensures Locks(calls, bo) == Releases(calls, bo) { LocksMatchReleases(calls, bo); }
    }
  }

  /** A shown id that is not the front buffer's belongs to no locked buffer; it is cached or gone. */
  lemma ShownIsUnlocked(calls: seq<Call>, front: Fb)
    requires Accounted(calls, front, NO_FB) && Shown(calls) != front.id
    ensures forall bo :: bo in Locked(calls) && bo in Cached(calls) ==> Cached(calls)[bo] != Shown(calls)
    ensures Shown(calls) in Live(calls) ==> Shown(calls) in Cached(calls).Values
  {}

  /** Two presents after which the display is told to show a buffer that has been given back. */
  method ShowsReleased() returns (out: Output)
    ensures out.Valid() && out.front.id == 1 && Shown(out.calls) == 2
    ensures Locked(out.calls) == {1} && 2 !in Live(out.calls)
  {
    out := new Output();
    var _ := out.Present(Answers(true, Some(1), true, 1, false, true, true, true, true));
    var _ := out.Present(Answers(true, Some(2), true, 2, false, true, true, true, false));
  }

  lemma DropAccounted(calls: seq<Call>, bo: Bo)
    requires Accounted(calls, NO_FB, NO_FB) && bo in Cached(calls)
    ensures Accounted(calls + [Drop(bo)], NO_FB, NO_FB)
    ensures Cached(calls + [Drop(bo)]) == Cached(calls) - {bo}
  {
    Extend(calls, Drop(bo));
    CachedIdsLive(calls);
    var m, n := Cached(calls), Cached(calls) - {bo};
    forall v | v in m.Values - {m[bo]} ensures v in n.Values {
      var k :| k in m && m[k] == v;
      assert n[k] == v;
    }
    assert n.Values == m.Values - {m[bo]};
  }

  lemma NothingLeft(calls: seq<Call>)
    requires Accounted(calls, NO_FB, NO_FB) && Cached(calls).Keys == {}
    ensures Legal(calls) && Locked(calls) == {} && Live(calls) == {}
  {
    assert forall v :: v in Cached(calls).Values ==> exists k :: k in Cached(calls) && Cached(calls)[k] == v;
  }

  lemma DisplayableNext(calls: seq<Call>, front: Fb, next: Fb)
    requires next != NO_FB && Accounted(calls, front, next)
    ensures InOrder(calls, SetCrtc(next.id, true)) && InOrder(calls, SetCrtc(next.id, false))
    ensures !FlipLost(calls) ==> InOrder(calls, Flip(next.id, true)) && InOrder(calls, Flip(next.id, false))
  {}

  /** A buffer that was not adopted is unlocked, and its id is cached or gone. */
  lemma Abandoned(before: seq<Call>, after: seq<Call>, front: Fb, next: Fb)
    requires next != NO_FB && Accounted(before, front, next) && Accounted(after, front, NO_FB)
    requires Cached(after) == Cached(before)
    ensures next.bo.Some? && next.bo.value !in Locked(after)
    ensures next.id in Live(after) <==> next.cached
  {
    CachedIdsLive(after);
  }

  lemma EndsInFlip(calls: seq<Call>, id: FbId)
    requires calls != [] && Last(calls) == Flip(id, true)
    ensures InOrder(calls, FlipTimeout)
  {}

  lemma LockAccounted(calls: seq<Call>, front: Fb, bo: Bo)
    requires Accounted(calls, front, NO_FB) && bo !in Locked(calls)
    ensures var c := calls + [Lock(bo)];
            && Legal(c) && Known(c, front) && front.bo != Some(bo)
            && Locked(c) == BosOf(front) + {bo} && Live(c) == Cached(c).Values + OwnIds(front)
            && Live(c) == Live(calls) && Cached(c) == Cached(calls)
            && OnDisplay(c) == OnDisplay(calls)
  {
    Extend(calls, Lock(bo));
  }

  lemma UnlockAccounted(calls: seq<Call>, front: Fb, bo: Bo)
    requires Legal(calls) && Known(calls, front) && front.bo != Some(bo)
    requires Locked(calls) == BosOf(front) + {bo} && Live(calls) == Cached(calls).Values + OwnIds(front)
    ensures var c := calls + [Release(bo)];
            Accounted(c, front, NO_FB) && OnDisplay(c) == OnDisplay(calls)
  {
    Extend(calls, Release(bo));
  }

  lemma AddKeepsShown(before: seq<Call>, bo: Bo, ans: Answers)
    ensures var c := before + [Lock(bo)]; var d := c + [Add(bo, ans.newId, ans.allocOk)];
            OnDisplay(c) == OnDisplay(before) && OnDisplay(d) == OnDisplay(before)
  {
    var c := before + [Lock(bo)];
    assert Init(c) == before;
    assert Init(c + [Add(bo, ans.newId, ans.allocOk)]) == c;
  }
}
