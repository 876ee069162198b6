/**
  The thread-specific data table of the preload library (tools/stackchk_trace.c): what each
  critical section computes, as a function of the memory it finds, and the C routines
  themselves, proved to compute it.
 */
module TsdTable {
  import opened Machine

  const KEYS := 1024
  const THREADS := 160

  /** Thread ids are nonzero; zero marks a free slot. */
  type Tid = t: int | t != 0 witness 1

  datatype Mem = Mem(nextKey: UInt32, tids: seq<int>, values: seq<seq<int>>) {
    predicate Shaped() {
      && |tids| == THREADS && |values| == THREADS
      && forall i :: 0 <= i < THREADS ==> |values[i]| == KEYS
    }
  }

  function EmptyMem(): (m: Mem)
    ensures m.Shaped()
  {
    Mem(0, seq(THREADS, _ => 0), seq(THREADS, _ => seq(KEYS, _ => 0)))
  }

  datatype Op = Create | Delete(key: nat) | Get(key: nat) | Set(key: nat, value: int) {
    predicate InRange() {
      !Create? ==> key < KEYS
    }
    predicate UsesSlot() {
      Get? || Set?
    }
  }

  datatype Outcome = Key(k: nat) | Value(v: int) | Done | Failed(errno: int)

  // ----- Slot search -------------------------------------------------------------------------

  datatype Choice = Found(slot: nat) | Claim(slot: nat) | Shared

  /** The scan of the thread-id array from position `i`, with `free` the first free slot so far. */
  function Scan(tids: seq<int>, t: Tid, i: nat, free: int): (c: Choice)
    requires i <= |tids|
    decreases |tids| - i
  {
    if i == |tids| then (if free >= 0 then Claim(free) else Shared)
    else if tids[i] == t then Found(i)
    else Scan(tids, t, i + 1, if tids[i] == 0 && free < 0 then i else free)
  }

  function Choose(tids: seq<int>, t: Tid): Choice {
    Scan(tids, t, 0, -1)
  }

  function SlotOf(c: Choice): nat {
    if c.Shared? then 0 else c.slot
  }

  function TidsAfter(tids: seq<int>, t: Tid): (r: seq<int>)
    ensures |r| == |tids|
  {
    var c := Choose(tids, t);
    if c.Claim? && c.slot < |tids| then tids[c.slot := t] else tids
  }

  lemma {:induction false} ScanFinds(tids: seq<int>, t: Tid, i: nat, free: int)
    requires i <= |tids| && t !in tids[..i]
    requires if free >= 0 then free < i && tids[free] == 0 && 0 !in tids[..free] else 0 !in tids[..i]
    ensures match Scan(tids, t, i, free)
            case Found(s) => s < |tids| && tids[s] == t
            case Claim(s) => s < |tids| && tids[s] == 0 && 0 !in tids[..s] && t !in tids
            case Shared => t !in tids && 0 !in tids
    decreases |tids| - i
  {
    if i == |tids| {
      assert tids[..i] == tids;
    } else if tids[i] != t {
      assert tids[..i + 1] == tids[..i] + [tids[i]];
      ScanFinds(tids, t, i + 1, if tids[i] == 0 && free < 0 then i else free);
    }
  }

  lemma ChooseFinds(tids: seq<int>, t: Tid)
    ensures match Choose(tids, t)
            case Found(s) => s < |tids| && tids[s] == t
            case Claim(s) => s < |tids| && tids[s] == 0 && 0 !in tids[..s] && t !in tids
            case Shared => t !in tids && 0 !in tids
  {
    ScanFinds(tids, t, 0, -1);
  }

  // ----- Critical sections -------------------------------------------------------------------

  function ClearUpTo(values: seq<seq<int>>, k: nat, n: nat): (r: seq<seq<int>>)
    requires n <= |values| && forall i :: 0 <= i < |values| ==> k < |values[i]|
    ensures |r| == |values| && forall i :: 0 <= i < |values| ==> |r[i]| == |values[i]|
  {
    seq(|values|, i requires 0 <= i < |values| => if i < n then values[i][k := 0] else values[i])
  }

  /** The memory after the critical section of `op` run by thread `t`, and what it returns. */
  function Apply(m: Mem, t: Tid, op: Op): (r: (Mem, Outcome))
    requires m.Shaped() && op.InRange()
    ensures r.0.Shaped()
  {
    match op
    case Create =>
      (m.(nextKey := (m.nextKey + 1) % TWO_32), if m.nextKey >= KEYS then Failed(11) else Key(m.nextKey))
    case Delete(k) =>
      (m.(values := ClearUpTo(m.values, k, THREADS)), Done)
    case Get(k) =>
      ChooseFinds(m.tids, t);
      (m.(tids := TidsAfter(m.tids, t)), Value(m.values[SlotOf(Choose(m.tids, t))][k]))
    case Set(k, v) =>
      ChooseFinds(m.tids, t);
      var s := SlotOf(Choose(m.tids, t));
      (m.(tids := TidsAfter(m.tids, t), values := m.values[s := m.values[s][k := v]]), Done)
  }

  // ----- The C routines ------------------------------------------------------------------------

  class Table {
    var nextKey: UInt32
    const tid: array<int>
    const values: array2<int>

    ghost predicate Valid() {
      tid.Length == THREADS && values.Length0 == THREADS && values.Length1 == KEYS
    }

    ghost function Contents(): (m: Mem)
      requires Valid()
      reads this, tid, values
      ensures m.Shaped()
    {
      Mem(nextKey, tid[..],
          seq(THREADS, i requires 0 <= i < THREADS reads values =>
            seq(KEYS, k requires 0 <= k < KEYS reads values => values[i, k])))
    }

    constructor ()
      ensures Valid() && Contents() == EmptyMem() && fresh(tid) && fresh(values)
    {
      nextKey := 0;
      tid := new int[THREADS](_ => 0);
      values := new int[THREADS, KEYS]((_, _) => 0);
      new;
      assert tid[..] == EmptyMem().tids;
      assert forall i :: 0 <= i < THREADS ==> Contents().values[i] == EmptyMem().values[i];
      assert Contents().values == EmptyMem().values;
    }

    /** The caller holds the lock. */
    method SlotLocked(t: Tid) returns (slot: nat)
      requires Valid()
      modifies tid
      ensures slot == SlotOf(Choose(old(tid[..]), t)) && slot < THREADS
      ensures tid[..] == TidsAfter(old(tid[..]), t)
    {
      ghost var tids := tid[..];
      ChooseFinds(tids, t);
      var freeSlot := -1;
      for i := 0 to THREADS
        invariant -1 <= freeSlot < i
        invariant tid[..] == tids
        invariant Scan(tids, t, i, freeSlot) == Choose(tids, t)
      {
        if tid[i] == t { return i; }
        if tid[i] == 0 && freeSlot < 0 { freeSlot := i; }
      }
      if freeSlot >= 0 {
        tid[freeSlot] := t;
        return freeSlot;
      }
      return 0;
    }

    method KeyCreate(ghost t: Tid) returns (rc: int, key: nat)
      requires Valid()
      modifies this`nextKey
      ensures Contents() == Apply(old(Contents()), t, Create).0
      ensures Apply(old(Contents()), t, Create).1 == if rc == 0 then Key(key) else Failed(rc)
    {
      var k := nextKey;
      nextKey := (nextKey + 1) % TWO_32;
      key := 0;
      if k >= KEYS { return 11, 0; }
      key := k;
      rc := 0;
    }

    method KeyDelete(ghost t: Tid, key: nat) returns (rc: int)
      requires Valid()
      modifies values
      ensures rc == if key < KEYS then 0 else 22
      ensures Contents() == if key < KEYS then Apply(old(Contents()), t, Delete(key)).0 else old(Contents())
    {
      if key >= KEYS { return 22; }
      for i := 0 to THREADS
        invariant forall a, b :: 0 <= a < THREADS && 0 <= b < KEYS ==>
                    values[a, b] == if a < i && b == key then 0 else old(values[a, b])
      {
        values[i, key] := 0;
      }
      assert forall i :: 0 <= i < THREADS ==> Contents().values[i] == old(Contents()).values[i][key := 0];
      assert Contents().values == ClearUpTo(old(Contents()).values, key, THREADS);
      return 0;
    }

    method GetSpecific(t: Tid, key: nat) returns (value: int)
      requires Valid()
      modifies tid
      ensures key < KEYS ==> (Contents(), Value(value)) == Apply(old(Contents()), t, Get(key))
      ensures key >= KEYS ==> Contents() == old(Contents()) && value == 0
    {
      if key >= KEYS { return 0; }
      var slot := SlotLocked(t);
      value := values[slot, key];
      assert forall i :: 0 <= i < THREADS ==> Contents().values[i] == old(Contents()).values[i];
      assert Contents().values == old(Contents()).values;
    }

    method SetSpecific(t: Tid, key: nat, value: int) returns (rc: int)
      requires Valid()
      modifies tid, values
      ensures rc == if key < KEYS then 0 else 22
      ensures Contents() == if key < KEYS then Apply(old(Contents()), t, Set(key, value)).0 else old(Contents())
    {
      if key >= KEYS { return 22; }
      var slot := SlotLocked(t);
      values[slot, key] := value;
      ghost var after := Apply(old(Contents()), t, Set(key, value)).0;
      assert forall i :: 0 <= i < THREADS ==> Contents().values[i] == after.values[i];
      assert Contents().values == after.values;
      return 0;
    }
  }
}
