/**
  The thread-specific data table under every interleaving of its threads
  (tools/stackchk_trace.c): a state machine whose steps are single memory accesses.

  A thread spins on the test-and-set lock, runs the body of one routine access by access, and
  releases the lock.  `base` and `log` are bookkeeping: the memory at the last release and the
  critical sections completed so far, in order of release.
 */
module TsdProtocol {
  import opened Machine
  import opened TsdTable
  import opened TsdHistory

  datatype Pc =
    | Idle
    | Spinning(op: Op)
    | Scanning(op: Op, i: nat, free: int)   // about to look at tid[i]
    | Claiming(op: Op, slot: nat)           // about to store the caller's id in tid[slot]
    | Touching(op: Op, slot: nat)           // about to load or store values[slot][key]
    | Clearing(key: nat, i: nat)            // about to clear values[i][key]
    | Reading                               // about to load the key counter
    | Counting(n: UInt32)                   // about to store n + 1 to it
    | Releasing(op: Op, outcome: Outcome)   // about to clear the lock

  predicate HoldsLock(pc: Pc) {
    !pc.Idle? && !pc.Spinning?
  }

  datatype State = State(mem: Mem, lock: bool, pcs: map<Tid, Pc>, base: Mem, log: seq<Event>) {
    function At(t: Tid): Pc {
      if t in pcs then pcs[t] else Idle
    }
  }

  function Start(): State {
    State(EmptyMem(), false, map[], EmptyMem(), [])
  }

  function Entry(op: Op): Pc {
    match op
    case Create => Reading
    case Delete(k) => Clearing(k, 0)
    case _ => Scanning(op, 0, -1)
  }

  predicate StoresInRange(m: Mem, pc: Pc) {
    && m.Shaped()
    && (pc.Claiming? ==> pc.slot < THREADS)
    && (pc.Touching? ==> pc.slot < THREADS && pc.op.UsesSlot() && pc.op.key < KEYS)
    && (pc.Clearing? ==> pc.key < KEYS && pc.i <= THREADS)
    && (pc.Scanning? ==> pc.i <= THREADS)
  }

  /** One access by thread `t`; an idle thread calls the routine of `op`. */
  function Step(s: State, t: Tid, op: Op): State
    requires StoresInRange(s.mem, s.At(t))
  {
    var pc := s.At(t);
    var m := s.mem;
    match pc
    case Idle =>
      // a key out of range is refused before the lock is tried
      if op.InRange() then s.(pcs := s.pcs[t := Spinning(op)]) else s
    case Spinning(o) =>
      if s.lock then s else s.(lock := true, pcs := s.pcs[t := Entry(o)])
    case Scanning(o, i, free) =>
      var next :=
        if i == THREADS then (if free >= 0 then Claiming(o, free) else Touching(o, 0))
        else if m.tids[i] == t then Touching(o, i)
        else Scanning(o, i + 1, if m.tids[i] == 0 && free < 0 then i else free);
      s.(pcs := s.pcs[t := next])
    case Claiming(o, slot) =>
      s.(mem := m.(tids := m.tids[slot := t]), pcs := s.pcs[t := Touching(o, slot)])
    case Touching(o, slot) =>
      if o.Get? then
        s.(pcs := s.pcs[t := Releasing(o, Value(m.values[slot][o.key]))])
      else
        s.(mem := m.(values := m.values[slot := m.values[slot][o.key := o.value]]),
           pcs := s.pcs[t := Releasing(o, Done)])
    case Clearing(k, i) =>
      if i == THREADS then s.(pcs := s.pcs[t := Releasing(Delete(k), Done)])
      else s.(mem := m.(values := m.values[i := m.values[i][k := 0]]),
              pcs := s.pcs[t := Clearing(k, i + 1)])
    case Reading =>
      s.(pcs := s.pcs[t := Counting(m.nextKey)])
    case Counting(n) =>
      s.(mem := m.(nextKey := (n + 1) % TWO_32),
         pcs := s.pcs[t := Releasing(Create, if n >= KEYS then Failed(11) else Key(n))])
    case Releasing(o, out) =>
      s.(lock := false, pcs := s.pcs[t := Idle], base := m, log := s.log + [Event(t, o, out)])
  }

  /** The routine a lock holder is in. */
  function OpOf(pc: Pc): Op {
    match pc
    case Scanning(o, _, _) => o
    case Claiming(o, _) => o
    case Touching(o, _) => o
    case Clearing(k, _) => Delete(k)
    case Releasing(o, _) => o
    case _ => Create
  }

  /** Steps the holder still needs, at most, to release the lock. */
  function StepsLeft(pc: Pc): nat {
    match pc
    case Scanning(_, i, _) => 4 + if i <= THREADS then THREADS - i else 0
    case Claiming(_, _) => 3
    case Touching(_, _) => 2
    case Clearing(_, i) => 2 + if i <= THREADS then THREADS - i else 0
    case Reading => 3
    case Counting(_) => 2
    case Releasing(_, _) => 1
    case _ => 0
  }

  // ----- The invariant -------------------------------------------------------------------------------

  /** How far the lock holder has taken the memory from `base` towards the result of its routine. */
  ghost predicate PartWay(base: Mem, mem: Mem, t: Tid, pc: Pc)
    requires base.Shaped() && mem.Shaped()
  {
    match pc
    case Scanning(o, i, free) =>
      && mem == base && o.UsesSlot() && o.InRange() && i <= THREADS
      && (free >= 0 ==> free < THREADS)
      && Scan(base.tids, t, i, free) == Choose(base.tids, t)
    case Claiming(o, slot) =>
      mem == base && o.UsesSlot() && o.InRange() && slot < THREADS && Choose(base.tids, t) == Claim(slot)
    case Touching(o, slot) =>
      && o.UsesSlot() && o.InRange() && slot < THREADS
      && mem == base.(tids := TidsAfter(base.tids, t)) && slot == SlotOf(Choose(base.tids, t))
    case Clearing(k, i) =>
      k < KEYS && i <= THREADS && mem == base.(values := ClearUpTo(base.values, k, i))
    case Reading => mem == base
    case Counting(n) => mem == base && n == base.nextKey
    case Releasing(o, out) =>
      o.InRange() && (mem, out) == Apply(base, t, o)
    case _ => false
  }

  ghost predicate Holder(s: State, t: Tid) {
    HoldsLock(s.At(t))
  }

  ghost predicate Inv(s: State) {
    && s.mem.Shaped() && s.base.Shaped()
    && (forall t: Tid :: s.At(t).Spinning? ==> s.At(t).op.InRange())
    // mutual exclusion
    && (forall t: Tid, u: Tid :: Holder(s, t) && Holder(s, u) ==> t == u)
    && (s.lock <==> exists t: Tid :: Holder(s, t))
    // the memory is the last released one, or the holder's work on it
    && (!s.lock ==> s.mem == s.base)
    && (forall t: Tid :: Holder(s, t) ==> PartWay(s.base, s.mem, t, s.At(t)))
    // the completed critical sections explain the memory and every outcome
    && Legal(s.log) && s.base == Replay(s.log)
  }

  lemma StartInv()
    ensures Inv(Start())
  {
    assert forall t: Tid :: !Holder(Start(), t);
  }

  /** Every thread may take a step in every reachable state. */
  lemma InvInRange(s: State, t: Tid)
    requires Inv(s)
    ensures StoresInRange(s.mem, s.At(t))
  {
    if Holder(s, t) { assert PartWay(s.base, s.mem, t, s.At(t)); }
  }

  lemma ClearNone(values: seq<seq<int>>, k: nat)
    requires forall i :: 0 <= i < |values| ==> k < |values[i]|
    ensures ClearUpTo(values, k, 0) == values
  {}

  lemma ClearOneMore(values: seq<seq<int>>, k: nat, n: nat)
    requires n < |values| && forall i :: 0 <= i < |values| ==> k < |values[i]|
    ensures ClearUpTo(values, k, n + 1) == ClearUpTo(values, k, n)[n := values[n][k := 0]]
  {}

  /** Thread `t` moved within its critical section. */
  ghost predicate Advanced(s: State, s': State, t: Tid)
    requires s.base.Shaped()
  {
    && HoldsLock(s'.At(t)) && s'.mem.Shaped() && PartWay(s.base, s'.mem, t, s'.At(t))
    && OpOf(s'.At(t)) == OpOf(s.At(t)) && StepsLeft(s'.At(t)) < StepsLeft(s.At(t))
    && s'.base == s.base && s'.log == s.log && s'.lock == s.lock
    && (forall u: Tid :: u != t ==> s'.At(u) == s.At(u))
  }

  lemma SearchAdvances(s: State, t: Tid, op: Op)
    requires s.mem.Shaped() && s.base.Shaped() && PartWay(s.base, s.mem, t, s.At(t))
    requires s.At(t).Scanning? || s.At(t).Claiming?
    ensures StoresInRange(s.mem, s.At(t)) && Advanced(s, Step(s, t, op), t)
  {
    ChooseFinds(s.base.tids, t);
  }

  lemma AccessAdvances(s: State, t: Tid, op: Op)
    requires s.mem.Shaped() && s.base.Shaped() && PartWay(s.base, s.mem, t, s.At(t))
    requires s.At(t).Touching? || s.At(t).Reading? || s.At(t).Counting?
    ensures StoresInRange(s.mem, s.At(t)) && Advanced(s, Step(s, t, op), t)
  {
    ChooseFinds(s.base.tids, t);
  }

  lemma ClearingAdvances(s: State, t: Tid, op: Op)
    requires s.mem.Shaped() && s.base.Shaped() && PartWay(s.base, s.mem, t, s.At(t))
    requires s.At(t).Clearing?
    ensures StoresInRange(s.mem, s.At(t)) && Advanced(s, Step(s, t, op), t)
  {
    var Clearing(k, i) := s.At(t);
    if i < THREADS { ClearOneMore(s.base.values, k, i); }
  }

  /** A holder's step short of the release keeps its part of the invariant. */
  lemma HolderAdvances(s: State, t: Tid, op: Op)
    requires s.mem.Shaped() && s.base.Shaped() && PartWay(s.base, s.mem, t, s.At(t))
    requires HoldsLock(s.At(t)) && !s.At(t).Releasing?
    ensures StoresInRange(s.mem, s.At(t)) && Advanced(s, Step(s, t, op), t)
  {
    hide PartWay, StoresInRange, Advanced, Step;
    match s.At(t) {
      case Scanning(_, _, _) => SearchAdvances(s, t, op);
      case Claiming(_, _) => SearchAdvances(s, t, op);
      case Clearing(_, _) => ClearingAdvances(s, t, op);
      case _ => AccessAdvances(s, t, op);
    }
  }

  lemma ReleaseExtends(s: State, t: Tid, op: Op)
    requires Inv(s) && Holder(s, t) && s.At(t).Releasing?
    requires StoresInRange(s.mem, s.At(t))
    ensures Legal(Step(s, t, op).log) && Step(s, t, op).base == Replay(Step(s, t, op).log)
  {
    var log' := Step(s, t, op).log;
    assert PartWay(s.base, s.mem, t, s.At(t));
    assert log'[..|s.log|] == s.log;
    forall i | 0 <= i < |log'|
      ensures log'[i].op.InRange()
    {}
    forall i | 0 <= i < |log'|
      ensures log'[i].outcome == Apply(Replay(log'[..i]), log'[i].t, log'[i].op).1
    {
      if i < |s.log| { assert log'[..i] == s.log[..i]; }
    }
  }

  /** The lock is free, or taken, for the same reason as before. */
  lemma HolderStepInv(s: State, s': State, t: Tid)
    requires Inv(s) && Holder(s, t) && Advanced(s, s', t)
    ensures Inv(s')
  {
    hide PartWay, Legal, Replay;
    assert Holder(s', t);
    assert forall u: Tid :: u != t ==> (Holder(s', u) <==> Holder(s, u));
    assert forall u: Tid :: Holder(s', u) ==> u == t;
  }

  lemma WaiterStepInv(s: State, t: Tid, op: Op)
    requires Inv(s) && !Holder(s, t) && StoresInRange(s.mem, s.At(t))
    ensures Inv(Step(s, t, op))
  {
    hide Legal, Replay, Apply;
    var s' := Step(s, t, op);
    assert forall u: Tid :: u != t ==> s'.At(u) == s.At(u);
    assert forall u: Tid :: Holder(s', u) ==> Holder(s, u) || u == t;
    if Holder(s', t) {
      assert forall u: Tid :: !Holder(s, u);
      if s.At(t).op.Delete? { ClearNone(s.base.values, s.At(t).op.key); }
    } else {
      assert forall u: Tid :: Holder(s', u) <==> Holder(s, u);
    }
  }

  lemma ReleaseStepInv(s: State, t: Tid, op: Op)
    requires Inv(s) && Holder(s, t) && s.At(t).Releasing? && StoresInRange(s.mem, s.At(t))
    ensures Inv(Step(s, t, op))
  {
    hide Legal, Replay, PartWay, Apply, Choose;
    ReleaseExtends(s, t, op);
    var s' := Step(s, t, op);
    assert forall u: Tid :: u != t ==> s'.At(u) == s.At(u);
    assert forall u: Tid :: u != t ==> (Holder(s', u) <==> Holder(s, u));
    assert forall u: Tid :: !Holder(s', u);
  }

  lemma StepInv(s: State, t: Tid, op: Op)
    requires Inv(s) && StoresInRange(s.mem, s.At(t))
    ensures Inv(Step(s, t, op))
  {
    if !Holder(s, t) {
      WaiterStepInv(s, t, op);
    } else if s.At(t).Releasing? {
      ReleaseStepInv(s, t, op);
    } else {
      hide Step, Advanced;
      HolderAdvances(s, t, op);
      HolderStepInv(s, Step(s, t, op), t);
    }
  }

  // ----- Runs ------------------------------------------------------------------------------------------

  /** A schedule: which thread moves, and what an idle thread calls. */
  type Schedule = seq<(Tid, Op)>

  ghost predicate IsRun(run: seq<State>, sched: Schedule) {
    && |run| == |sched| + 1 && run[0] == Start()
    && forall i :: 0 <= i < |sched| ==>
         StoresInRange(run[i].mem, run[i].At(sched[i].0)) && run[i + 1] == Step(run[i], sched[i].0, sched[i].1)
  }

  lemma {:induction false} RunInv(run: seq<State>, sched: Schedule, n: nat)
    requires IsRun(run, sched) && n < |run|
    ensures Inv(run[n])
  {
    if n == 0 { StartInv(); }
    else {
      RunInv(run, sched, n - 1);
      StepInv(run[n - 1], sched[n - 1].0, sched[n - 1].1);
    }
  }

  /** Mutual exclusion in every state of every run. */
  lemma LockHolderUnique(run: seq<State>, sched: Schedule, n: nat, t: Tid, u: Tid)
    requires IsRun(run, sched) && n < |run|
    requires HoldsLock(run[n].At(t)) && HoldsLock(run[n].At(u))
    ensures t == u && run[n].lock
  {
    RunInv(run, sched, n);
    assert Holder(run[n], t) && Holder(run[n], u);
  }

  lemma {:induction false} LogGrows(run: seq<State>, sched: Schedule, n: nat, m: nat)
    requires IsRun(run, sched) && n <= m < |run|
    ensures run[n].log <= run[m].log
  {
    if n < m { LogGrows(run, sched, n, m - 1); }
  }

  /**
    The table refines a map from threads and keys to values: in every state of every run, each
    completed get returned its caller's last set since the key was last deleted, if at most 160
    threads had used the table, or if the caller was one of the 2nd to 160th of any number.
   */
  lemma GetsSeeOwnValues(run: seq<State>, sched: Schedule, n: nat, i: nat)
    requires IsRun(run, sched) && n < |run|
    requires i < |run[n].log| && run[n].log[i].op.Get?
    requires |Order(run[n].log[..i + 1])| <= THREADS || Private(Order(run[n].log[..i + 1]), run[n].log[i].t)
    ensures GetIsRight(run[n].log, i)
  {
    RunInv(run, sched, n);
    GetsReturnLastSet(run[n].log, i);
  }

  /**
    A thread about to touch the table does so in a slot of its own exactly when it is among the
    first 160 users.
   */
  lemma SlotsStayPrivate(run: seq<State>, sched: Schedule, n: nat, t: Tid)
    requires IsRun(run, sched) && n < |run| && run[n].At(t).Touching?
    ensures StoresInRange(run[n].mem, run[n].At(t))
    ensures var order := Order(run[n].log);
            run[n].mem.tids[run[n].At(t).slot] == t <==> |order| < THREADS || t in order[..THREADS]
  {
    RunInv(run, sched, n);
    var s := run[n];
    assert Holder(s, t);
    SharesSlotExactly(s.log, t);
    ChooseFinds(s.base.tids, t);
  }

  lemma KeysDistinctInRuns(run: seq<State>, sched: Schedule, n: nat)
    requires IsRun(run, sched) && n < |run|
    ensures KeysDistinct(run[n].log) <==> Creates(run[n].log) <= TWO_32
  {
    RunInv(run, sched, n);
    KeysDistinctExactly(run[n].log);
  }

  // ----- The lock is always given back -----------------------------------------------------------------

  /** How often `t` moves. */
  function Moves(sched: Schedule, t: Tid): nat {
    if sched == [] then 0 else (if sched[0].0 == t then 1 else 0) + Moves(sched[1..], t)
  }

  /** At `j` thread `t` has just released the lock and entered its critical section in the log. */
  ghost predicate GaveBack(run: seq<State>, n: nat, j: nat, t: Tid)
    requires n < |run| && j < |run|
  {
    && run[j].At(t).Idle? && !run[j].lock
    && |run[j].log| == |run[n].log| + 1 && run[n].log <= run[j].log
    && run[j].log[|run[n].log|].t == t && run[j].log[|run[n].log|].op == OpOf(run[n].At(t))
  }

  /** While `t` holds the lock, the step of another thread leaves it and the log alone. */
  lemma OthersWait(s: State, t: Tid, u: Tid, op: Op)
    requires Inv(s) && HoldsLock(s.At(t)) && u != t && StoresInRange(s.mem, s.At(u))
    ensures Step(s, u, op).At(t) == s.At(t) && Step(s, u, op).log == s.log
  {
    hide Inv, PartWay, Legal, Replay;
    HolderAlone(s, t, u);
  }

  lemma HolderAlone(s: State, t: Tid, u: Tid)
    requires Inv(s) && HoldsLock(s.At(t)) && u != t
    ensures s.lock && !HoldsLock(s.At(u))
  {
    assert Holder(s, t);
    assert Holder(s, u) ==> u == t;
  }

  /**
    Under every interleaving the holder gives the lock back by the time it has moved as often as
    its routine still needs, which is 164 times at most.
   */
  lemma {:induction false} LockIsGivenBack(run: seq<State>, sched: Schedule, n: nat, m: nat, t: Tid)
    returns (j: nat)
    requires IsRun(run, sched) && n <= m <= |sched| && HoldsLock(run[n].At(t))
    requires Moves(sched[n..m], t) >= StepsLeft(run[n].At(t))
    ensures StepsLeft(run[n].At(t)) <= 164
    ensures n < j <= m && GaveBack(run, n, j, t)
    decreases m - n
  {
    hide Inv, PartWay, Legal, Replay, Apply, Choose, Step;
    assert n < m;
    var s, u, op := run[n], sched[n].0, sched[n].1;
    assert sched[n..m][1..] == sched[n + 1..m];
    RunInv(run, sched, n);
    if u != t {
      OthersWait(s, t, u, op);
      j := LockIsGivenBack(run, sched, n + 1, m, t);
    } else if s.At(t).Releasing? {
      ReleaseFrees(s, t, op);
      j := n + 1;
    } else {
      HolderMoves(s, t, op);
      j := LockIsGivenBack(run, sched, n + 1, m, t);
    }
  }

  lemma HolderMoves(s: State, t: Tid, op: Op)
    requires Inv(s) && HoldsLock(s.At(t)) && !s.At(t).Releasing?
    ensures StoresInRange(s.mem, s.At(t)) && Advanced(s, Step(s, t, op), t)
  {
    hide Step;
    assert Holder(s, t);
    HolderAdvances(s, t, op);
  }

  lemma ReleaseFrees(s: State, t: Tid, op: Op)
    requires s.At(t).Releasing? && StoresInRange(s.mem, s.At(t))
    ensures var s' := Step(s, t, op);
            s'.At(t).Idle? && !s'.lock && s'.log == s.log + [Event(t, s.At(t).op, s.At(t).outcome)]
  {}

  // ----- Every legal history is the log of a run ---------------------------------------------------------

  /** Thread `t` moves `n` times and nobody else. */
  ghost predicate Solo(s: State, t: Tid, n: nat, s': State)
    decreases n
  {
    if n == 0 then s == s'
    else StoresInRange(s.mem, s.At(t)) && Solo(Step(s, t, Create), t, n - 1, s')
  }

  /** Left alone, the holder releases the lock. */
  lemma {:induction false} HolderFinishes(s: State, t: Tid) returns (n: nat, s': State)
    requires Inv(s) && HoldsLock(s.At(t))
    ensures Solo(s, t, n, s') && Inv(s')
    ensures !s'.lock && s'.At(t).Idle? && |s'.log| == |s.log| + 1 && s'.log[..|s.log|] == s.log
    ensures s'.log[|s.log|].t == t && s'.log[|s.log|].op == OpOf(s.At(t))
    ensures forall u: Tid :: u != t ==> s'.At(u) == s.At(u)
    decreases StepsLeft(s.At(t))
  {
    hide PartWay, Legal, Replay, Apply, Choose;
    assert Holder(s, t);
    InvInRange(s, t);
    var next := Step(s, t, Create);
    StepInv(s, t, Create);
    if s.At(t).Releasing? {
      n, s' := 1, next;
      assert Solo(next, t, 0, next);
    } else {
      hide Step;
      HolderAdvances(s, t, Create);
      var k;
      k, s' := HolderFinishes(next, t);
      n := k + 1;
    }
  }

  function Last(run: seq<State>): State
    requires run != []
  {
    run[|run| - 1]
  }

  /** A run that goes on where another one ends. */
  ghost predicate Continues(run: seq<State>, sched: Schedule, run': seq<State>, sched': Schedule) {
    IsRun(run', sched') && run != [] && run <= run' && sched <= sched'
  }

  lemma AppendStep(run: seq<State>, sched: Schedule, t: Tid, op: Op) returns (run': seq<State>, sched': Schedule)
    requires IsRun(run, sched) && StoresInRange(Last(run).mem, Last(run).At(t))
    ensures Continues(run, sched, run', sched') && Last(run') == Step(Last(run), t, op)
  {
    run', sched' := run + [Step(Last(run), t, op)], sched + [(t, op)];
  }

  lemma {:induction false} AppendSolo(run: seq<State>, sched: Schedule, t: Tid, n: nat, s': State)
    returns (run': seq<State>, sched': Schedule)
    requires IsRun(run, sched) && Solo(Last(run), t, n, s')
    ensures Continues(run, sched, run', sched') && Last(run') == s'
    decreases n
  {
    run', sched' := run, sched;
    if n > 0 {
      run', sched' := AppendStep(run, sched, t, Create);
      run', sched' := AppendSolo(run', sched', t, n - 1, s');
    }
  }

  /** No thread is inside a routine. */
  ghost predicate Quiet(s: State) {
    !s.lock && forall t: Tid :: s.At(t).Idle?
  }

  /** With the lock free, a waiting thread can run its routine to the end. */
  lemma TakeTurn(run: seq<State>, sched: Schedule, t: Tid) returns (run': seq<State>, sched': Schedule)
    requires IsRun(run, sched) && !Last(run).lock && Last(run).At(t).Spinning?
    ensures Continues(run, sched, run', sched') && !Last(run').lock && Last(run').At(t).Idle?
    ensures forall u: Tid :: u != t ==> Last(run').At(u) == Last(run).At(u)
    ensures var log, log' := Last(run).log, Last(run').log;
            && |log'| == |log| + 1 && log'[..|log|] == log
            && log'[|log|].t == t && log'[|log|].op == Last(run).At(t).op
  {
    hide Inv, PartWay;
    RunInv(run, sched, |run| - 1);
    InvInRange(Last(run), t);
    run', sched' := AppendStep(run, sched, t, Create);
    assert forall u: Tid :: u != t ==> Last(run').At(u) == Last(run).At(u);
    RunInv(run', sched', |run'| - 1);
    var n, s' := HolderFinishes(Last(run'), t);
    run', sched' := AppendSolo(run', sched', t, n, s');
  }

  /** With the lock free, an idle thread can call a routine and run it to the end. */
  lemma RunRoutine(run: seq<State>, sched: Schedule, t: Tid, op: Op) returns (run': seq<State>, sched': Schedule)
    requires IsRun(run, sched) && !Last(run).lock && Last(run).At(t).Idle? && op.InRange()
    ensures Continues(run, sched, run', sched') && !Last(run').lock
    ensures forall u: Tid :: Last(run').At(u) == Last(run).At(u)
    ensures var log, log' := Last(run).log, Last(run').log;
            |log'| == |log| + 1 && log'[..|log|] == log && log'[|log|].t == t && log'[|log|].op == op
  {
    RunInv(run, sched, |run| - 1);
    hide Inv;
    InvInRange(Last(run), t);
    run', sched' := AppendStep(run, sched, t, op);
    assert forall u: Tid :: u != t ==> Last(run').At(u) == Last(run).At(u);
    run', sched' := TakeTurn(run', sched', t);
  }

  /** Outcomes are determined: two legal logs of the same calls after the same past are one. */
  lemma SameOutcome(log: seq<Event>, a: Event, b: Event)
    requires Legal(log + [a]) && Legal(log + [b]) && a.t == b.t && a.op == b.op
    ensures a == b
  {
    hide Apply, Replay;
    assert (log + [a])[..|log|] == log && (log + [b])[..|log|] == log;
    assert (log + [a])[|log|] == a && (log + [b])[|log|] == b;
  }

  lemma LegalPrefix(log: seq<Event>, n: nat)
    requires Legal(log) && n <= |log|
    ensures Legal(log[..n])
  {
    hide Apply, Replay;
    forall i | 0 <= i < n
      ensures log[..n][i].outcome == Apply(Replay(log[..n][..i]), log[..n][i].t, log[..n][i].op).1
    {
      assert log[..n][..i] == log[..i];
    }
  }

  /** Whatever legal history extends that of a quiet run, some continuation of the run has it. */
  lemma {:induction false} EveryHistoryHappens(run: seq<State>, sched: Schedule, log: seq<Event>)
    returns (run': seq<State>, sched': Schedule)
    requires IsRun(run, sched) && Quiet(Last(run)) && Legal(log) && Last(run).log <= log
    ensures Continues(run, sched, run', sched') && Quiet(Last(run')) && Last(run').log == log
    decreases |log|
  {
    hide Legal, Step;
    if log == Last(run).log {
      run', sched' := run, sched;
    } else {
      var init, e := log[..|log| - 1], log[|log| - 1];
      assert log == init + [e];
      LegalPrefix(log, |init|);
      LegalInRange(log, |init|);
      var run1, sched1 := EveryHistoryHappens(run, sched, init);
      run', sched' := RunRoutine(run1, sched1, e.t, e.op);
      RunInv(run', sched', |run'| - 1);
      var e' := Last(run').log[|init|];
      assert Last(run').log == init + [e'];
      SameOutcome(init, e, e');
    }
  }

  lemma LegalInRange(log: seq<Event>, i: nat)
    requires Legal(log) && i < |log|
    ensures log[i].op.InRange()
  {}

  // ----- From any state to a quiet one with a full table ---------------------------------------------------

  /** Thread `t` is one of the 2nd to 160th users, or will be when it releases the lock it holds. */
  ghost predicate Settled(s: State, t: Tid) {
    || Private(Order(s.log), t)
    || (Holder(s, t) && OpOf(s.At(t)).UsesSlot() && Private(Joined(Order(s.log), t), t))
  }

  /** The holder, if any, leaves. */
  lemma Unlock(run: seq<State>, sched: Schedule, t: Tid) returns (run': seq<State>, sched': Schedule)
    requires IsRun(run, sched) && !Settled(Last(run), t)
    ensures Continues(run, sched, run', sched') && !Last(run').lock && !Private(Order(Last(run').log), t)
    ensures Last(run).log <= Last(run').log
  {
    hide PartWay, Legal, Replay, Order, Private, Joined, Step;
    RunInv(run, sched, |run| - 1);
    run', sched' := run, sched;
    var s := Last(run);
    if s.lock {
      var h: Tid :| Holder(s, h);
      var n, s' := HolderFinishes(s, h);
      run', sched' := AppendSolo(run, sched, h, n, s');
      var e := s'.log[|s.log|];
      assert s'.log == s.log + [e];
      OrderGrows(s.log, e);
      if h != t { NotPrivate(Order(s.log), h, t); }
    }
  }

  /** Fresh threads use up the table. */
  lemma {:induction false} Crowd(run: seq<State>, sched: Schedule, t: Tid)
    returns (run': seq<State>, sched': Schedule)
    requires IsRun(run, sched) && !Last(run).lock && !Private(Order(Last(run).log), t)
    ensures Continues(run, sched, run', sched') && !Last(run').lock && !Private(Order(Last(run').log), t)
    ensures Last(run).log <= Last(run').log && |Order(Last(run').log)| >= THREADS
    decreases THREADS - |Order(Last(run).log)|
  {
    hide Order, Private, Joined, Step;
    run', sched' := run, sched;
    var order, pcs := Order(Last(run).log), Last(run).pcs;
    if |order| < THREADS {
      var u := Stranger(order, t, pcs.Keys);
      run', sched' := RunRoutine(run, sched, u, Get(0));
      var e := Last(run').log[|Last(run).log|];
      assert Last(run').log == Last(run).log + [e];
      OrderGrows(Last(run).log, e);
      NotPrivate(order, u, t);
      run', sched' := Crowd(run', sched', t);
    }
  }

  lemma {:induction false} Stranger(order: seq<Tid>, t: Tid, busy: set<Tid>) returns (u: Tid)
    ensures u !in order && u != t && u !in busy
    decreases busy
  {
    if busy == {} {
      u := Above(order + [t]);
      assert t in order + [t] && forall x :: x in order ==> x in order + [t];
    } else {
      var b :| b in busy;
      u := Stranger(order + [b], t, busy - {b});
      assert b in order + [b] && forall x :: x in order ==> x in order + [b];
    }
  }

  /** The waiting threads finish one after the other. */
  lemma {:induction false} Drain(run: seq<State>, sched: Schedule, waiting: set<Tid>)
    returns (run': seq<State>, sched': Schedule)
    requires IsRun(run, sched) && !Last(run).lock
    requires forall t: Tid :: !Last(run).At(t).Idle? ==> t in waiting && Last(run).At(t).Spinning?
    ensures Continues(run, sched, run', sched') && Quiet(Last(run')) && Last(run).log <= Last(run').log
    decreases waiting
  {
    hide Step;
    run', sched' := run, sched;
    if waiting != {} {
      var t :| t in waiting;
      if Last(run).At(t).Spinning? { run', sched' := TakeTurn(run, sched, t); }
      run', sched' := Drain(run', sched', waiting - {t});
    }
  }

  lemma FullStaysPrivate(order: seq<Tid>, more: seq<Tid>, t: Tid)
    requires order <= more && |order| >= THREADS && !Private(order, t)
    ensures !Private(more, t)
  {
    assert forall i :: 0 <= i < |order| ==> more[i] == order[i];
  }

  lemma QuietAndFull(run: seq<State>, sched: Schedule, t: Tid) returns (run': seq<State>, sched': Schedule)
    requires IsRun(run, sched) && !Settled(Last(run), t)
    ensures Continues(run, sched, run', sched') && Quiet(Last(run')) && Last(run).log <= Last(run').log
    ensures !Private(Order(Last(run').log), t)
  {
    hide Settled, Order, Private, Step, Legal, PartWay;
    run', sched' := Unlock(run, sched, t);
    run', sched' := Crowd(run', sched', t);
    var full := Last(run');
    RunInv(run', sched', |run'| - 1);
    assert forall u: Tid :: !Holder(full, u);
    run', sched' := Drain(run', sched', full.pcs.Keys);
    assert Last(run').log[..|full.log|] == full.log;
    OrderPrefix(Last(run').log, |full.log|);
    FullStaysPrivate(Order(full.log), Order(Last(run').log), t);
  }

  // ----- Whose gets stay right -----------------------------------------------------------------------------

  /** What the holder is doing enters the log next. */
  lemma {:induction false} HolderIsNext(run: seq<State>, sched: Schedule, n: nat, m: nat, t: Tid)
    requires IsRun(run, sched) && n <= m < |run| && HoldsLock(run[n].At(t))
    ensures var log, log' := run[n].log, run[m].log;
            if |log'| == |log| then log' == log && HoldsLock(run[m].At(t)) && OpOf(run[m].At(t)) == OpOf(run[n].At(t))
            else log < log' && log'[|log|].t == t && log'[|log|].op == OpOf(run[n].At(t))
  {
    hide Inv, PartWay, Legal, Replay, Apply, Choose, Step;
    if n < m {
      var s, u, op := run[m - 1], sched[m - 1].0, sched[m - 1].1;
      HolderIsNext(run, sched, n, m - 1, t);
      LogGrows(run, sched, m - 1, m);
      if |s.log| == |run[n].log| {
        RunInv(run, sched, m - 1);
        if u != t {
          OthersWait(s, t, u, op);
        } else if s.At(t).Releasing? {
          ReleaseFrees(s, t, op);
        } else {
          HolderMoves(s, t, op);
        }
      }
    }
  }

  lemma SettledStays(run: seq<State>, sched: Schedule, n: nat, m: nat, t: Tid)
    requires IsRun(run, sched) && n <= m < |run| && Settled(run[n], t)
    ensures GetsAreRight(run[m].log, |run[n].log|, t)
  {
    hide Legal, Step, Order, Private, Joined, Inv;
    RunInvLegal(run, sched, m);
    LogGrows(run, sched, n, m);
    var log, log' := run[n].log, run[m].log;
    assert log'[..|log|] == log;
    if Private(Order(log), t) {
      PrivateStays(log', |log|, |log|, t);
    } else {
      HolderIsNext(run, sched, n, m, t);
      if |log'| > |log| {
        var e := log'[|log|];
        assert log'[..|log| + 1] == log + [e];
        OrderGrows(log, e);
        PrivateStays(log', |log| + 1, |log|, t);
      }
    }
  }

  lemma RunInvLegal(run: seq<State>, sched: Schedule, n: nat)
    requires IsRun(run, sched) && n < |run|
    ensures Legal(run[n].log)
  {
    RunInv(run, sched, n);
  }

  /** In every continuation of the run every further get of `t` returns what `t` last set. */
  ghost predicate StaysRight(run: seq<State>, sched: Schedule, t: Tid)
    requires run != []
  {
    forall run', sched' :: Continues(run, sched, run', sched') ==>
      GetsAreRight(Last(run').log, |Last(run).log|, t)
  }

  /**
    In every reachable state: whatever the threads do from here on, a thread keeps getting what it
    set last if and only if it is one of the 2nd to 160th to use the table.
   */
  lemma StaysRightExactly(run: seq<State>, sched: Schedule, t: Tid)
    requires IsRun(run, sched)
    ensures StaysRight(run, sched, t) <==> Settled(Last(run), t)
  {
    hide Legal, Step, Settled, Order, Private;
    var log := Last(run).log;
    if Settled(Last(run), t) {
      forall run', sched' | Continues(run, sched, run', sched')
        ensures GetsAreRight(Last(run').log, |log|, t)
      {
        SettledStays(run', sched', |run| - 1, |run'| - 1, t);
      }
    } else {
      var run1, sched1 := QuietAndFull(run, sched, t);
      RunInvLegal(run1, sched1, |run1| - 1);
      var ext := Leak(Last(run1).log, t);
      var run2, sched2 := EveryHistoryHappens(run1, sched1, ext);
      assert Continues(run, sched, run2, sched2);
      assert !GetsAreRight(Last(run2).log, |log|, t);
    }
  }

  lemma EmptyLog()
    ensures Legal([]) && Order([]) == []
  {}

  /** The bound of 160 threads is sharp: with 161, any of them can be handed another's value. */
  lemma SharedSlotLeaks(t: Tid) returns (run: seq<State>, sched: Schedule)
    ensures IsRun(run, sched)
    ensures var log := Last(run).log;
            && |Order(log)| == THREADS + 1
            && log != [] && log[|log| - 1].t == t && log[|log| - 1].op == Get(0) && !GetIsRight(log, |log| - 1)
  {
    hide Legal, Order, GetIsRight, LastSet, Step, Replay, Apply;
    EmptyLog();
    run, sched := [Start()], [];
    var log := Leak([], t);
    run, sched := EveryHistoryHappens(run, sched, log);
    var i := |log| - 1;
    assert log[..i + 1] == log;
    if |Order(log)| <= THREADS {
      GetsReturnLastSet(log, i);
      assert false;
    }
  }
}
