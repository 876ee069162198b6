/**
  What a sequence of completed critical sections means: every thread sees its own last value
  of each key, as long as no more than 160 threads have used the table.
 */
module TsdHistory {
  import opened Machine
  import opened TsdTable

  datatype Event = Event(t: Tid, op: Op, outcome: Outcome)

  ghost predicate WellFormed(log: seq<Event>) {
    forall i :: 0 <= i < |log| ==> log[i].op.InRange()
  }

  function Replay(log: seq<Event>): (m: Mem)
    requires forall i :: 0 <= i < |log| ==> log[i].op.InRange()
    ensures m.Shaped()
  {
    if log == [] then EmptyMem()
    else
      var e := log[|log| - 1];
      Apply(Replay(log[..|log| - 1]), e.t, e.op).0
  }

  /** Each recorded outcome is what the critical section computes at that point. */
  ghost predicate Legal(log: seq<Event>) {
    && WellFormed(log)
    && forall i :: 0 <= i < |log| ==>
         log[i].outcome == Apply(Replay(log[..i]), log[i].t, log[i].op).1
  }

  /** The value `t` last set under `k` since `k` was last deleted; null if there is none. */
  function LastSet(log: seq<Event>, t: Tid, k: nat): int
  {
    if log == [] then 0
    else
      var e := log[|log| - 1];
      if e.op.Set? && e.op.key == k && e.t == t then e.op.value
      else if e.op.Delete? && e.op.key == k then 0
      else LastSet(log[..|log| - 1], t, k)
  }

  // ----- Users in order of first use ---------------------------------------------------------------

  function Joined(order: seq<Tid>, t: Tid): seq<Tid> {
    if t in order then order else order + [t]
  }

  /** The threads that have used the table, in order of first use. */
  function Order(log: seq<Event>): (order: seq<Tid>)
    ensures forall i, j :: 0 <= i < j < |order| ==> order[i] != order[j]
  {
    if log == [] then []
    else
      var before, e := Order(log[..|log| - 1]), log[|log| - 1];
      if e.op.UsesSlot() then Joined(before, e.t) else before
  }

  /** The thread-id array with the first 160 of them in their order. */
  function Slots(order: seq<Tid>): (tids: seq<int>)
    ensures |tids| == THREADS
  {
    seq(THREADS, i requires 0 <= i < THREADS => if i < |order| then order[i] as int else 0)
  }

  /** One of the 2nd to 160th users. */
  ghost predicate Private(order: seq<Tid>, t: Tid) {
    exists i :: 1 <= i < |order| && i < THREADS && order[i] == t
  }

  lemma SlotByOrder(order: seq<Tid>, t: Tid)
    requires forall i, j :: 0 <= i < j < |order| ==> order[i] != order[j]
    ensures match Choose(Slots(order), t)
            case Found(s) => s < |order| && s < THREADS && order[s] == t
            case Claim(s) => s == |order| < THREADS && t !in order
            case Shared => |order| >= THREADS && t !in order[..THREADS]
    ensures TidsAfter(Slots(order), t) == Slots(Joined(order, t))
  {
    var tids := Slots(order);
    assert forall i :: 0 <= i < |order| && i < THREADS ==> tids[i] == order[i];
    assert |order| < THREADS ==> tids[|order|] == 0;
    assert forall s :: |order| < s <= THREADS ==> tids[..s][|order|] == 0;
    ChooseFinds(tids, t);
  }

  lemma OrderGrows(log: seq<Event>, e: Event)
    ensures Order(log + [e]) == if e.op.UsesSlot() then Joined(Order(log), e.t) else Order(log)
  {
    assert (log + [e])[..|log|] == log;
  }

  lemma {:induction false} OrderPrefix(log: seq<Event>, n: nat)
    requires n <= |log|
    ensures Order(log[..n]) <= Order(log)
  {
    if n == |log| {
      assert log[..n] == log;
    } else {
      var init := log[..|log| - 1];
      assert init[..n] == log[..n];
      OrderPrefix(init, n);
    }
  }

  /** The table holds the first 160 users, each in the slot of its rank. */
  lemma {:induction false} RegisteredUsers(log: seq<Event>)
    requires WellFormed(log)
    ensures Replay(log).tids == Slots(Order(log))
  {
    if log != [] {
      RegisteredUsers(log[..|log| - 1]);
      SlotByOrder(Order(log[..|log| - 1]), log[|log| - 1].t);
    }
  }

  /** A thread is sent to the shared slot 0 exactly when 160 others used the table before it. */
  lemma SharesSlotExactly(log: seq<Event>, t: Tid)
    requires WellFormed(log)
    ensures Choose(Replay(log).tids, t).Shared? <==> |Order(log)| >= THREADS && t !in Order(log)[..THREADS]
  {
    hide Replay, Order;
    RegisteredUsers(log);
    SlotByOrder(Order(log), t);
  }

  // ----- The table agrees with the history ---------------------------------------------------------

  /** All slots, but for slot 0 once it is shared, hold what their threads last set. */
  ghost predicate Agrees(m: Mem, log: seq<Event>)
    requires m.Shaped()
  {
    var order := Order(log);
    && m.tids == Slots(order)
    && forall i, k :: 0 <= i < THREADS && 0 <= k < KEYS && (i > 0 || |order| <= THREADS) ==>
         m.values[i][k] == if i < |order| then LastSet(log, order[i], k) else 0
  }

  lemma {:induction false} NeverSet(log: seq<Event>, t: Tid, k: nat)
    requires t !in Order(log)
    ensures LastSet(log, t, k) == 0
  {
    if log != [] { NeverSet(log[..|log| - 1], t, k); }
  }

  lemma LastSetAfter(log: seq<Event>, e: Event, t: Tid, k: nat)
    ensures LastSet(log + [e], t, k) ==
            if e.op.Set? && e.op.key == k && e.t == t then e.op.value
            else if e.op.Delete? && e.op.key == k then 0
            else LastSet(log, t, k)
  {
    assert (log + [e])[..|log|] == log;
  }

  /** One critical section keeps the agreement, whichever thread runs it. */
  lemma StepAgrees(m: Mem, log: seq<Event>, e: Event)
    requires m.Shaped() && Agrees(m, log) && e.op.InRange()
    ensures Agrees(Apply(m, e.t, e.op).0, log + [e])
    ensures e.op.Get? && (|Order(log + [e])| <= THREADS || Private(Order(log + [e]), e.t)) ==>
              Apply(m, e.t, e.op).1 == Value(LastSet(log, e.t, e.op.key))
  {
    hide Order, LastSet, Choose;
    OrderGrows(log, e);
    SlotByOrder(Order(log), e.t);
    forall t: Tid, k: nat ensures LastSet(log + [e], t, k) ==
            if e.op.Set? && e.op.key == k && e.t == t then e.op.value
            else if e.op.Delete? && e.op.key == k then 0
            else LastSet(log, t, k)
    {
      LastSetAfter(log, e, t, k);
    }
    forall k: nat | e.t !in Order(log) ensures LastSet(log, e.t, k) == 0 { NeverSet(log, e.t, k); }
  }

  lemma {:induction false} ReplayAgrees(log: seq<Event>)
    requires WellFormed(log)
    ensures Agrees(Replay(log), log)
  {
    if log != [] {
      var init, e := log[..|log| - 1], log[|log| - 1];
      assert log == init + [e];
      ReplayAgrees(init);
      StepAgrees(Replay(init), init, e);
    }
  }

  /** The get at `i` returned what its caller had last set. */
  ghost predicate GetIsRight(log: seq<Event>, i: nat)
    requires i < |log| && log[i].op.Get?
  {
    log[i].outcome == Value(LastSet(log[..i], log[i].t, log[i].op.key))
  }

  /** Gets are right while at most 160 threads have used the table, and for the 2nd to 160th users always. */
  lemma GetsReturnLastSet(log: seq<Event>, i: nat)
    requires Legal(log) && i < |log| && log[i].op.Get?
    requires |Order(log[..i + 1])| <= THREADS || Private(Order(log[..i + 1]), log[i].t)
    ensures GetIsRight(log, i)
  {
    assert log[..i + 1] == log[..i] + [log[i]];
    ReplayAgrees(log[..i]);
    StepAgrees(Replay(log[..i]), log[..i], log[i]);
  }

  // ----- Whose gets stay right -------------------------------------------------------------------------

  /** The log after one more critical section. */
  function Then(log: seq<Event>, t: Tid, op: Op): seq<Event>
    requires WellFormed(log) && op.InRange()
  {
    log + [Event(t, op, Apply(Replay(log), t, op).1)]
  }

  lemma ThenLegal(log: seq<Event>, t: Tid, op: Op)
    requires Legal(log) && op.InRange()
    ensures Legal(Then(log, t, op)) && Then(log, t, op)[..|log|] == log
    ensures Replay(Then(log, t, op)) == Apply(Replay(log), t, op).0
  {
    var log' := Then(log, t, op);
    assert log'[..|log|] == log;
    forall i | 0 <= i < |log'|
      ensures log'[i].op.InRange() && log'[i].outcome == Apply(Replay(log'[..i]), log'[i].t, log'[i].op).1
    {
      if i < |log| { assert log'[..i] == log[..i]; }
    }
  }

  function Above(order: seq<Tid>): (t: Tid)
    ensures t > 0 && forall u :: u in order ==> u < t
  {
    if order == [] then 1
    else
      var t := Above(order[1..]);
      assert order == [order[0]] + order[1..];
      if order[0] < t then t else order[0] + 1
  }

  lemma NotPrivate(order: seq<Tid>, u: Tid, t: Tid)
    requires !Private(order, t) && u != t
    ensures !Private(Joined(order, u), t) && (u !in order ==> |Joined(order, u)| == |order| + 1)
  {}

  lemma {:induction false} FillUp(log: seq<Event>, t: Tid) returns (full: seq<Event>)
    requires Legal(log) && !Private(Order(log), t)
    ensures Legal(full) && log <= full && !Private(Order(full), t)
    ensures |Order(full)| == if |Order(log)| < THREADS then THREADS else |Order(log)|
    decreases THREADS - |Order(log)|
  {
    full := log;
    if |Order(log)| < THREADS {
      hide Apply, Replay, Legal, Private, Order, Joined;
      var order := Order(log);
      var u := Above(order + [t]);
      assert t in order + [t];
      assert u !in order && u != t by { assert forall x :: x in order ==> x in order + [t]; }
      var next := Then(log, u, Get(0));
      ThenLegal(log, u, Get(0));
      OrderGrows(log, next[|log|]);
      NotPrivate(order, u, t);
      full := FillUp(next, t);
    }
  }

  /** Another thread of slot 0 writes there, then `t` reads. */
  lemma WrongGet(log: seq<Event>, u: Tid, t: Tid) returns (ext: seq<Event>)
    requires Legal(log) && t != u
    requires SlotOf(Choose(Replay(log).tids, u)) == 0 && TidsAfter(Replay(log).tids, u) == Replay(log).tids
    requires SlotOf(Choose(Replay(log).tids, t)) == 0
    ensures Legal(ext) && log <= ext && |ext| == |log| + 2
    ensures ext[|log|].t == u && ext[|log|].op.Set? && ext[|log| + 1].t == t && ext[|log| + 1].op == Get(0)
    ensures !GetIsRight(ext, |log| + 1)
  {
    hide Replay, Choose, Order;
    var v := LastSet(log, t, 0) + 1;
    var wrote := Then(log, u, Set(0, v));
    ThenLegal(log, u, Set(0, v));
    assert Replay(wrote).values[0][0] == v;
    ext := Then(wrote, t, Get(0));
    ThenLegal(wrote, t, Get(0));
    assert LastSet(wrote, t, 0) == v - 1;
    assert ext[..|log| + 1] == wrote;
  }

  lemma OrderAfterTwo(log: seq<Event>, ext: seq<Event>, u: Tid, t: Tid)
    requires log <= ext && |ext| == |log| + 2 && ext[|log|].t == u && ext[|log| + 1].t == t
    requires ext[|log|].op.UsesSlot() && ext[|log| + 1].op.UsesSlot()
    ensures Order(ext) == Joined(Joined(Order(log), u), t)
  {
    hide Order;
    var mid := log + [ext[|log|]];
    OrderGrows(log, ext[|log|]);
    assert ext == mid + [ext[|log| + 1]];
    OrderGrows(mid, ext[|log| + 1]);
  }

  /** Some continuation gives `t` a foreign value, with at most one more user than 160 or those there are. */
  lemma Leak(log: seq<Event>, t: Tid) returns (ext: seq<Event>)
    requires Legal(log) && !Private(Order(log), t)
    ensures Legal(ext) && log <= ext && |ext| > |log|
    ensures ext[|ext| - 1].t == t && ext[|ext| - 1].op == Get(0) && !GetIsRight(ext, |ext| - 1)
    ensures |Order(ext)| <= 1 + if |Order(log)| < THREADS then THREADS else |Order(log)|
  {
    hide Replay, Order, Choose, TidsAfter, GetIsRight;
    var full := FillUp(log, t);
    var order := Order(full);
    RegisteredUsers(full);
    var u := if order[0] == t then Above(order) else order[0];
    SlotByOrder(order, u);
    SlotByOrder(order, t);
    assert Slots(Joined(order, u)) == Slots(order);
    ext := WrongGet(full, u, t);
    OrderAfterTwo(full, ext, u, t);
  }

  ghost predicate GetsAreRight(log: seq<Event>, from: nat, t: Tid) {
    forall i :: from <= i < |log| && log[i].t == t && log[i].op.Get? ==> GetIsRight(log, i)
  }

  lemma PrivateGrows(order: seq<Tid>, more: seq<Tid>, t: Tid)
    requires order <= more && Private(order, t)
    ensures Private(more, t)
  {
    var i :| 1 <= i < |order| && i < THREADS && order[i] == t;
    assert more[i] == t;
  }

  /** A thread that is private after `n` critical sections gets what it set ever after. */
  lemma PrivateStays(log: seq<Event>, n: nat, from: nat, t: Tid)
    requires Legal(log) && n <= |log| && n <= from + 1 && Private(Order(log[..n]), t)
    ensures GetsAreRight(log, from, t)
  {
    hide Legal, Order, Private, GetIsRight;
    forall i | from <= i < |log| && log[i].t == t && log[i].op.Get? ensures GetIsRight(log, i) {
      assert log[..i + 1][..n] == log[..n];
      OrderPrefix(log[..i + 1], n);
      PrivateGrows(Order(log[..n]), Order(log[..i + 1]), t);
      GetsReturnLastSet(log, i);
    }
  }

  /**
    Whatever happens next, a thread keeps getting what it set last if and only if it was one of
    the 2nd to 160th threads to use the table.
   */
  lemma PrivateExactly(log: seq<Event>, t: Tid)
    requires Legal(log)
    ensures (forall ext :: Legal(ext) && log <= ext ==> GetsAreRight(ext, |log|, t)) <==> Private(Order(log), t)
  {
    hide Legal, Order, GetIsRight;
    if Private(Order(log), t) {
      forall ext | Legal(ext) && log <= ext ensures GetsAreRight(ext, |log|, t) {
        assert ext[..|log|] == log;
        PrivateStays(ext, |log|, |log|, t);
      }
    } else {
      var ext := Leak(log, t);
      assert !GetsAreRight(ext, |log|, t);
    }
  }

  // ----- Key numbers -------------------------------------------------------------------------------

  function Creates(log: seq<Event>): nat {
    if log == [] then 0
    else Creates(log[..|log| - 1]) + if log[|log| - 1].op.Create? then 1 else 0
  }

  lemma {:induction false} CounterCounts(log: seq<Event>)
    requires WellFormed(log)
    ensures Replay(log).nextKey == Creates(log) % TWO_32
  {
    if log != [] { CounterCounts(log[..|log| - 1]); }
  }

  lemma {:induction false} CreatesGrow(log: seq<Event>, i: nat, j: nat)
    requires i < j <= |log|
    ensures Creates(log[..i]) + (if log[i].op.Create? then 1 else 0) <= Creates(log[..j])
  {
    assert log[..j][..j - 1] == log[..j - 1];
    if i < j - 1 { CreatesGrow(log, i, j - 1); }
  }

  lemma {:induction false} NthCreate(log: seq<Event>, n: nat) returns (i: nat)
    requires n < Creates(log)
    ensures i < |log| && log[i].op.Create? && Creates(log[..i]) == n
  {
    var init := log[..|log| - 1];
    if n < Creates(init) {
      i := NthCreate(init, n);
      assert init[..i] == log[..i];
    } else {
      i := |log| - 1;
    }
  }

  lemma CreatedKey(log: seq<Event>, i: nat)
    requires Legal(log) && i < |log| && log[i].op.Create?
    ensures var n := Creates(log[..i]) % TWO_32;
            log[i].outcome == if n < KEYS then Key(n) else Failed(11)
  {
    CounterCounts(log[..i]);
  }

  ghost predicate KeysDistinct(log: seq<Event>) {
    forall i, j :: 0 <= i < j < |log| && log[i].op.Create? && log[j].op.Create? && log[i].outcome.Key? ==>
      log[i].outcome != log[j].outcome
  }

  lemma KeysDiffer(log: seq<Event>, i: nat, j: nat)
    requires Legal(log) && Creates(log) <= TWO_32
    requires i < j < |log| && log[i].op.Create? && log[j].op.Create? && log[i].outcome.Key?
    ensures log[i].outcome != log[j].outcome
  {
    hide *;
    assert log[..|log|] == log;
    CreatesGrow(log, i, j);
    CreatesGrow(log, j, |log|);
    CreatedKey(log, i);
    CreatedKey(log, j);
    SmallMod(Creates(log[..i]));
    SmallMod(Creates(log[..j]));
  }

  lemma SmallMod(n: nat)
    ensures n < TWO_32 ==> n % TWO_32 == n
  {}

  lemma KeysRepeat(log: seq<Event>) returns (i: nat, j: nat)
    requires Legal(log) && Creates(log) > TWO_32
    ensures i < j < |log| && log[i].op.Create? && log[j].op.Create?
    ensures log[i].outcome == Key(0) && log[j].outcome == Key(0)
  {
    i := NthCreate(log, 0);
    j := NthCreate(log, TWO_32);
    CreatedKey(log, i);
    CreatedKey(log, j);
    if j < i { CreatesGrow(log, j, i); }
  }

  /** Created keys are pairwise distinct exactly until the 32-bit counter comes round. */
  lemma KeysDistinctExactly(log: seq<Event>)
    requires Legal(log)
    ensures KeysDistinct(log) <==> Creates(log) <= TWO_32
  {
    if Creates(log) <= TWO_32 {
      forall i, j | 0 <= i < j < |log| && log[i].op.Create? && log[j].op.Create? && log[i].outcome.Key?
        ensures log[i].outcome != log[j].outcome
      {
        KeysDiffer(log, i, j);
      }
    } else {
      var i, j := KeysRepeat(log);
    }
  }
}
