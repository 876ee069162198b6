/**
  The calls that the native presenter makes to the buffer allocator and the display driver
  (tools/ridux_native_ui.c), as a ledger: which buffers are locked, which framebuffer ids exist,
  and which sequences of calls are in order.
 */
module Ledger {
  type Bo = nat     // a buffer object
  type FbId = nat   // a framebuffer id; 0 is none

  datatype Call =
    | Lock(bo: Bo)                            // gbm_surface_lock_front_buffer
    | Release(bo: Bo)                         // gbm_surface_release_buffer
    | Add(bo: Bo, id: FbId, cached: bool)     // drmModeAddFB, and whether the id was cached on the buffer
    | Remove(id: FbId)                        // drmModeRmFB
    | Drop(bo: Bo)                            // the buffer is destroyed and its cached id removed
    | SetCrtc(id: FbId, ok: bool)
    | Flip(id: FbId, ok: bool)                // drmModePageFlip
    | FlipTimeout                             // the flip event never came

  function Last(calls: seq<Call>): Call
    requires calls != []
  {
    calls[|calls| - 1]
  }

  function Init(calls: seq<Call>): seq<Call>
    requires calls != []
  {
    calls[..|calls| - 1]
  }

  function Locked(calls: seq<Call>): set<Bo> {
    if calls == [] then {}
    else match Last(calls)
      case Lock(bo) => Locked(Init(calls)) + {bo}
      case Release(bo) => Locked(Init(calls)) - {bo}
      case _ => Locked(Init(calls))
  }

  /** The id cached on each buffer. */
  function Cached(calls: seq<Call>): map<Bo, FbId> {
    if calls == [] then map[]
    else match Last(calls)
      case Add(bo, id, true) => Cached(Init(calls))[bo := id]
      case Drop(bo) => Cached(Init(calls)) - {bo}
      case _ => Cached(Init(calls))
  }

  /** The ids that exist. */
  function Live(calls: seq<Call>): set<FbId> {
    if calls == [] then {}
    else match Last(calls)
      case Add(_, id, _) => Live(Init(calls)) + {id}
      case Remove(id) => Live(Init(calls)) - {id}
      case Drop(bo) =>
        var cached := Cached(Init(calls));
        if bo in cached then Live(Init(calls)) - {cached[bo]} else Live(Init(calls))
      case _ => Live(Init(calls))
  }

  /** Page flipping failed at some point. */
  function FlipLost(calls: seq<Call>): bool {
    calls != [] && (FlipLost(Init(calls)) || Last(calls).FlipTimeout? || (Last(calls).Flip? && !Last(calls).ok))
  }

  /** The id the display was last told, successfully, to show. */
  function Shown(calls: seq<Call>): FbId {
    if calls == [] then 0
    else match Last(calls)
      case SetCrtc(id, true) => id
      case Flip(id, true) => id
      case _ => Shown(Init(calls))
  }

  /** The display accepted a flip whose event never came, and has accepted nothing since. */
  function EventMissing(calls: seq<Call>): bool {
    calls != [] &&
    match Last(calls)
    case FlipTimeout => true
    case SetCrtc(_, true) => false
    case Flip(_, true) => false
    case _ => EventMissing(Init(calls))
  }

  /** A call that is in order after `before`. */
  ghost predicate InOrder(before: seq<Call>, call: Call) {
    match call
    case Lock(bo) => bo !in Locked(before)
    case Release(bo) => bo in Locked(before)
    case Add(bo, id, _) => bo in Locked(before) && bo !in Cached(before) && id !in Live(before) && id != 0
    case Remove(id) => id in Live(before) && id !in Cached(before).Values
    case Drop(bo) => bo in Cached(before) && bo !in Locked(before)
    case SetCrtc(id, _) => id in Live(before)
    case Flip(id, _) => id in Live(before) && !FlipLost(before)
    case FlipTimeout => before != [] && Last(before).Flip? && Last(before).ok
  }

  ghost predicate Legal(calls: seq<Call>) {
    calls == [] || (Legal(Init(calls)) && InOrder(Init(calls), Last(calls)))
  }

  lemma Extend(calls: seq<Call>, call: Call)
    requires Legal(calls) && InOrder(calls, call)
    ensures Legal(calls + [call])
    ensures Init(calls + [call]) == calls && Last(calls + [call]) == call
  {
    assert Init(calls + [call]) == calls;
  }

  predicate Accepted(call: Call) {
    (call.SetCrtc? || call.Flip?) && call.ok
  }

  ghost predicate LostLast(calls: seq<Call>, i: nat) {
    i < |calls| && calls[i].FlipTimeout? && forall j :: i < j < |calls| ==> !Accepted(calls[j])
  }

  /** An event is missing as long as nothing is accepted after it was lost. */
  lemma {:induction false} EventMissingExactly(calls: seq<Call>)
    ensures EventMissing(calls) <==> exists i :: LostLast(calls, i)
  {
    if calls != [] {
      var before := Init(calls);
      EventMissingExactly(before);
      if Last(calls).FlipTimeout? {
        assert LostLast(calls, |before|);
      } else if !Accepted(Last(calls)) {
        forall i: nat ensures LostLast(calls, i) <==> LostLast(before, i) {
          assert forall j :: 0 <= j < |before| ==> before[j] == calls[j];
        }
      } else {
        assert forall i: nat :: i < |before| && LostLast(calls, i) ==> !Accepted(calls[|before|]);
      }
    }
  }

  // ----- What a legal ledger says over time ------------------------------------------------------------

  /** Cached ids exist, and two buffers never share one. */
  lemma {:induction false} CachedIdsLive(calls: seq<Call>)
    requires Legal(calls)
    ensures 0 !in Live(calls)
    ensures forall bo :: bo in Cached(calls) ==> Cached(calls)[bo] in Live(calls)
    ensures forall a, b :: a in Cached(calls) && b in Cached(calls) && a != b ==> Cached(calls)[a] != Cached(calls)[b]
  {
    if calls != [] {
      var before := Init(calls);
      CachedIdsLive(before);
      match Last(calls) {
        case Remove(id) =>
          forall bo | bo in Cached(before) ensures Cached(before)[bo] != id {
            assert Cached(before)[bo] in Cached(before).Values;
          }
        case _ =>
      }
    }
  }

  function Adds(calls: seq<Call>, id: FbId): nat {
    if calls == [] then 0 else Adds(Init(calls), id) + if Last(calls).Add? && Last(calls).id == id then 1 else 0
  }

  /** Removals of an id, by the presenter or with its buffer. */
  function Removals(calls: seq<Call>, id: FbId): nat {
    if calls == [] then 0
    else
      var before := Removals(Init(calls), id);
      match Last(calls)
      case Remove(i) => before + if i == id then 1 else 0
      case Drop(bo) => before + if bo in Cached(Init(calls)) && Cached(Init(calls))[bo] == id then 1 else 0
      case _ => before
  }

  /** Every id is removed as often as it was added, but for the ids that still exist. */
  lemma {:induction false} AddsMatchRemovals(calls: seq<Call>, id: FbId)
    requires Legal(calls)
    ensures Adds(calls, id) == Removals(calls, id) + if id in Live(calls) then 1 else 0
  {
    if calls != [] {
      AddsMatchRemovals(Init(calls), id);
      CachedIdsLive(Init(calls));
    }
  }

  function Locks(calls: seq<Call>, bo: Bo): nat {
    if calls == [] then 0 else Locks(Init(calls), bo) + if Last(calls) == Lock(bo) then 1 else 0
  }

  function Releases(calls: seq<Call>, bo: Bo): nat {
    if calls == [] then 0 else Releases(Init(calls), bo) + if Last(calls) == Release(bo) then 1 else 0
  }

  /** Every buffer is released as often as it was locked, but for the locked ones. */
  lemma {:induction false} LocksMatchReleases(calls: seq<Call>, bo: Bo)
    requires Legal(calls)
    ensures Locks(calls, bo) == Releases(calls, bo) + if bo in Locked(calls) then 1 else 0
  {
    if calls != [] { LocksMatchReleases(Init(calls), bo); }
  }

  lemma {:induction false} PrefixLegal(calls: seq<Call>, n: nat)
    requires Legal(calls) && n <= |calls|
    ensures Legal(calls[..n])
    ensures n < |calls| ==> InOrder(calls[..n], calls[n])
  {
    if n < |calls| {
      assert Init(calls)[..n] == calls[..n];
      if n < |calls| - 1 { PrefixLegal(Init(calls), n); }
    } else {
      assert calls[..n] == calls;
    }
  }

  /** A cached buffer stays cached until it is destroyed. */
  lemma {:induction false} StaysCached(calls: seq<Call>, i: nat, j: nat, bo: Bo)
    requires i < j <= |calls| && calls[i].Add? && calls[i].cached && calls[i].bo == bo
    requires forall k :: i < k < j ==> calls[k] != Drop(bo)
    ensures bo in Cached(calls[..j])
  {
    assert Init(calls[..j]) == calls[..j - 1];
    if i < j - 1 { StaysCached(calls, i, j - 1, bo); }
  }

  /** A buffer with a cached id is never given another one. */
  lemma CachedNeverAddedAgain(calls: seq<Call>, i: nat, j: nat)
    requires Legal(calls) && i < j < |calls| && calls[i].Add? && calls[i].cached && calls[j].Add?
    requires calls[j].bo == calls[i].bo
    ensures exists k :: i < k < j && calls[k] == Drop(calls[i].bo)
  {
    if forall k :: i < k < j ==> calls[k] != Drop(calls[i].bo) {
      StaysCached(calls, i, j, calls[i].bo);
      PrefixLegal(calls, j);
    }
  }

  lemma {:induction false} LossIsFinal(calls: seq<Call>, i: nat, j: nat)
    requires i < j <= |calls| && (calls[i].FlipTimeout? || (calls[i].Flip? && !calls[i].ok))
    ensures FlipLost(calls[..j])
  {
    assert Init(calls[..j]) == calls[..j - 1];
    if i < j - 1 { LossIsFinal(calls, i, j - 1); }
  }

  /** Once a flip has failed or timed out, no flip is ever tried again. */
  lemma NoFlipAfterLoss(calls: seq<Call>, i: nat, j: nat)
    requires Legal(calls) && i < j < |calls| && (calls[i].FlipTimeout? || (calls[i].Flip? && !calls[i].ok))
    ensures !calls[j].Flip?
  {
    LossIsFinal(calls, i, j);
    PrefixLegal(calls, j);
  }
}
