/**
  The descriptor wiring of shell pipelines (sh_run_pipeline in tools/ridux_sh.c): pipes made by
  the parent, two dup2 calls and a round of closes in every forked stage, closes in the parent.
 */
module Pipeline {
  /** What a descriptor refers to: an end of the k-th pipe, or something opened before. */
  datatype File = ReadEnd(k: nat) | WriteEnd(k: nat) | Earlier(id: nat)

  type Table = map<int, File>

  datatype Pipe = Pipe(r: int, w: int)

  // ----- System calls ------------------------------------------------------------------------------

  function Dup2(t: Table, from: int, to: int): Table {
    if from in t then t[to := t[from]] else t
  }

  function Close(t: Table, fd: int): Table {
    t - {fd}
  }

  // ----- The descriptors of n pipes ------------------------------------------------------------------

  function Descriptors(ps: seq<Pipe>): (fds: set<int>) {
    if ps == [] then {} else Descriptors(ps[..|ps| - 1]) + {ps[|ps| - 1].r, ps[|ps| - 1].w}
  }

  /** The table after opening the pipes. */
  function Opened(t: Table, ps: seq<Pipe>): (o: Table)
    ensures o.Keys == t.Keys + Descriptors(ps)
  {
    if ps == [] then t
    else
      var n := |ps| - 1;
      Opened(t, ps[..n])[ps[n].r := ReadEnd(n)][ps[n].w := WriteEnd(n)]
  }

  /** The kernel hands out two distinct unused descriptors for every pipe. */
  ghost predicate Fresh(t: Table, ps: seq<Pipe>) {
    ps == [] ||
    var n := |ps| - 1;
    && Fresh(t, ps[..n])
    && ps[n].r != ps[n].w && ps[n].r !in Opened(t, ps[..n]) && ps[n].w !in Opened(t, ps[..n])
  }

  lemma {:induction false} OpenedHolds(t: Table, ps: seq<Pipe>, i: nat)
    requires Fresh(t, ps) && i < |ps|
    ensures ps[i].r in Descriptors(ps) && ps[i].w in Descriptors(ps)
    ensures Opened(t, ps)[ps[i].r] == ReadEnd(i) && Opened(t, ps)[ps[i].w] == WriteEnd(i)
  {
    var n := |ps| - 1;
    if i < n {
      OpenedHolds(t, ps[..n], i);
      assert ps[..n][i] == ps[i];
    }
  }

  lemma {:induction false} OpenedKeeps(t: Table, ps: seq<Pipe>)
    requires Fresh(t, ps)
    ensures Descriptors(ps) !! t.Keys
    ensures Opened(t, ps) - Descriptors(ps) == t
  {
    if ps != [] {
      var before := ps[..|ps| - 1];
      OpenedKeeps(t, before);
      var o := Opened(t, before);
      assert forall fd :: fd in t ==> fd in o && o[fd] == t[fd] by {
        assert forall fd :: fd in t ==> (o - Descriptors(before))[fd] == t[fd];
      }
    }
  }

  // ----- A stage -------------------------------------------------------------------------------------

  /** The descriptors of stage `i` of `count` when its program starts. */
  function Staged(t: Table, ps: seq<Pipe>, count: nat, i: nat): Table
    requires i < count == |ps| + 1
  {
    var t1 := if i > 0 then Dup2(t, ps[i - 1].r, 0) else t;
    var t2 := if i + 1 < count then Dup2(t1, ps[i].w, 1) else t1;
    t2 - Descriptors(ps)
  }

  /** What the pipeline is meant to give it: the stage's neighbours on stdin and stdout. */
  function Wired(t: Table, count: nat, i: nat): Table
    requires i < count
  {
    var t1 := if i > 0 then t[0 := ReadEnd(i - 1)] else t;
    if i + 1 < count then t1[1 := WriteEnd(i)] else t1
  }

  /** The close loop of stages and parent. */
  method CloseAll(t0: Table, ps: seq<Pipe>) returns (t: Table)
    ensures t == t0 - Descriptors(ps)
  {
    t := t0;
    assert Descriptors(ps[..0]) == {};
    for j := 0 to |ps|
      invariant t == t0 - Descriptors(ps[..j])
    {
      assert ps[..j + 1][..j] == ps[..j];
      t := Close(t, ps[j].r);
      t := Close(t, ps[j].w);
    }
    assert ps[..|ps|] == ps;
  }

  datatype Outcome = Ran | PipeFailed | ForkFailed

  /** The pipe calls: `pipesOk` of them succeed before one fails. */
  method OpenPipes(start: Table, ps: seq<Pipe>, pipesOk: nat) returns (ok: bool, parent: Table)
    ensures ok <==> pipesOk >= |ps|
    ensures parent == Opened(start, if ok then ps else ps[..pipesOk])
  {
    parent := start;
    assert ps[..0] == [];
    for i := 0 to |ps|
      invariant parent == Opened(start, ps[..i]) && i <= pipesOk
    {
      if i >= pipesOk { return false, parent; }
      assert ps[..i + 1][..i] == ps[..i];
      parent := parent[ps[i].r := ReadEnd(i)][ps[i].w := WriteEnd(i)];
    }
    assert ps[..|ps|] == ps;
    ok := true;
  }

  /** What a forked stage does before its program starts. */
  method SetUpStage(parent: Table, count: nat, ps: seq<Pipe>, i: nat) returns (child: Table)
    requires i < count == |ps| + 1
    ensures child == Staged(parent, ps, count, i)
  {
    child := parent;
    if i > 0 { child := Dup2(child, ps[i - 1].r, 0); }
    if i + 1 < count { child := Dup2(child, ps[i].w, 1); }
    child := CloseAll(child, ps);
  }

  /**
    sh_run_pipeline for two stages or more.  `pipesOk` pipe calls and `forksOk` fork calls
    succeed before one fails.
   */
  method RunPipeline(start: Table, count: nat, ps: seq<Pipe>, pipesOk: nat, forksOk: nat)
    returns (outcome: Outcome, parent: Table, stages: seq<Table>)
    requires 2 <= count && |ps| == count - 1 && Fresh(start, ps)
    ensures outcome == if pipesOk < count - 1 then PipeFailed else if forksOk < count then ForkFailed else Ran
    ensures outcome == Ran ==> parent == start && |stages| == count
    ensures outcome == ForkFailed ==> parent == Opened(start, ps) && |stages| == forksOk
    ensures outcome == PipeFailed ==> parent == Opened(start, ps[..pipesOk]) && stages == []
    ensures forall i :: 0 <= i < |stages| ==> stages[i] == Staged(Opened(start, ps), ps, count, i)
  {
    hide Opened, Staged, Fresh;
    stages := [];
    var ok;
    ok, parent := OpenPipes(start, ps, pipesOk);
    if !ok { return PipeFailed, parent, stages; }
    for i := 0 to count
      invariant |stages| == i <= forksOk
      invariant forall k :: 0 <= k < i ==> stages[k] == Staged(parent, ps, count, k)
    {
      if i >= forksOk { return ForkFailed, parent, stages; }
      var child := SetUpStage(parent, count, ps, i);
      stages := stages + [child];
    }
    OpenedKeeps(start, ps);
    parent := CloseAll(parent, ps);
    outcome := Ran;
  }

  // ----- When the wiring is right ----------------------------------------------------------------------

  lemma StageIsWired(t: Table, ps: seq<Pipe>, count: nat, i: nat)
    requires i < count == |ps| + 1 && Fresh(t, ps) && 0 !in Descriptors(ps) && 1 !in Descriptors(ps)
    ensures Staged(Opened(t, ps), ps, count, i) == Wired(t, count, i)
  {
    hide Opened, Fresh, Descriptors;
    OpenedKeeps(t, ps);
    if i > 0 { OpenedHolds(t, ps, i - 1); }
    if i + 1 < count { OpenedHolds(t, ps, i); }
  }

  /** Every stage is wired as meant exactly when no pipe got descriptor 0 or 1. */
  lemma WiredExactly(t: Table, ps: seq<Pipe>, count: nat)
    requires count == |ps| + 1 && count >= 2 && Fresh(t, ps)
    ensures (forall i :: 0 <= i < count ==> Staged(Opened(t, ps), ps, count, i) == Wired(t, count, i))
            <==> 0 !in Descriptors(ps) && 1 !in Descriptors(ps)
  {
    if 0 !in Descriptors(ps) && 1 !in Descriptors(ps) {
      forall i | 0 <= i < count ensures Staged(Opened(t, ps), ps, count, i) == Wired(t, count, i) {
        StageIsWired(t, ps, count, i);
      }
    } else if 0 in Descriptors(ps) {
      // the last stage closes its own standard input
      assert 0 !in Staged(Opened(t, ps), ps, count, count - 1) && 0 in Wired(t, count, count - 1);
    } else {
      assert 1 !in Staged(Opened(t, ps), ps, count, 0) && 1 in Wired(t, count, 0);
    }
  }

  /** The table was made before the pipes. */
  ghost predicate NoPipeEnds(t: Table) {
    forall fd :: fd in t ==> t[fd].Earlier?
  }

  /** Each pipe end is held once: the write end as stdout of its stage, the read end as stdin of the next. */
  lemma HoldersOf(t: Table, ps: seq<Pipe>, count: nat, k: nat, i: nat, fd: int)
    requires i < count == |ps| + 1 && k < |ps| && Fresh(t, ps) && NoPipeEnds(t)
    requires 0 !in Descriptors(ps) && 1 !in Descriptors(ps)
    ensures var stage := Staged(Opened(t, ps), ps, count, i);
            && (fd in stage && stage[fd] == WriteEnd(k) <==> i == k && fd == 1)
            && (fd in stage && stage[fd] == ReadEnd(k) <==> i == k + 1 && fd == 0)
  {
    StageIsWired(t, ps, count, i);
  }
}
