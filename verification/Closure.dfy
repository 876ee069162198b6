/** The package dependency closure of tools/prefetch_ridux_pkgs.py. */
module Closure {
  type Name = string

  /** The dependencies of each package that has a record, in the record's order. */
  type Records = map<Name, seq<Name>>

  function Deps(records: Records, name: Name): seq<Name> {
    if name in records then records[name] else []
  }

  /** A chain of names, each a dependency of the one before. */
  ghost predicate Chain(records: Records, path: seq<Name>) {
    && path != []
    && forall i :: 0 <= i < |path| - 1 ==> path[i + 1] in Deps(records, path[i])
  }

  ghost predicate Reachable(records: Records, top: seq<Name>, name: Name) {
    exists path :: Chain(records, path) && path[0] in top && path[|path| - 1] == name
  }

  lemma ReachTop(records: Records, top: seq<Name>, name: Name)
    requires name in top
    ensures Reachable(records, top, name)
  {
    assert Chain(records, [name]);
  }

  lemma ReachDep(records: Records, top: seq<Name>, name: Name, dep: Name)
    requires Reachable(records, top, name) && dep in Deps(records, name)
    ensures Reachable(records, top, dep)
  {
    var path :| Chain(records, path) && path[0] in top && path[|path| - 1] == name;
    var longer := path + [dep];
    assert Chain(records, longer) && longer[0] == path[0];
  }

  /** A set that contains the start and is closed under dependencies contains the whole chain. */
  lemma {:induction false} ChainStays(records: Records, path: seq<Name>, seen: set<Name>)
    requires Chain(records, path) && path[0] in seen
    requires forall n :: n in seen ==> forall d :: d in Deps(records, n) ==> d in seen
    ensures path[|path| - 1] in seen
    decreases |path|
  {
    if |path| > 1 {
      assert path[1] in Deps(records, path[0]);
      var tail := path[1..];
      forall i | 0 <= i < |tail| - 1 ensures tail[i + 1] in Deps(records, tail[i]) {
        assert path[(i + 1) + 1] in Deps(records, path[i + 1]);
      }
      ChainStays(records, path[1..], seen);
    }
  }

  /** Every name the records or the request mention. */
  ghost function Universe(records: Records, top: seq<Name>): set<Name> {
    (set n | n in top) + (set n, d | n in records && d in records[n] :: d)
  }

  /** The dependencies not yet seen, in order: what the loop appends. */
  method AppendUnseen(todo: seq<Name>, deps: seq<Name>, seen: set<Name>) returns (r: seq<Name>)
    ensures forall n :: n in r <==> n in todo || (n in deps && n !in seen)
  {
    r := todo;
    for i := 0 to |deps|
      invariant forall n :: n in r <==> n in todo || (n in deps[..i] && n !in seen)
    {
      assert deps[..i + 1] == deps[..i] + [deps[i]];
      if deps[i] !in seen { r := r + [deps[i]]; }
    }
    assert deps[..|deps|] == deps;
  }

  /** Every name in sight is reachable, and every seen name has its dependencies in sight. */
  ghost predicate Sound(records: Records, top: seq<Name>, seen: set<Name>, todo: seq<Name>) {
    forall n :: n in todo || n in seen ==> Reachable(records, top, n) && n in Universe(records, top)
  }

  ghost predicate Complete(records: Records, top: seq<Name>, seen: set<Name>, todo: seq<Name>) {
    && (forall n :: n in top ==> n in seen || n in todo)
    && forall n, d :: n in seen && d in Deps(records, n) ==> d in seen || d in todo
  }

  lemma DepsSound(records: Records, top: seq<Name>, cur: Name)
    requires Reachable(records, top, cur) && cur in records
    ensures forall d :: d in records[cur] ==> Reachable(records, top, d) && d in Universe(records, top)
  {
    forall d | d in records[cur] ensures Reachable(records, top, d) {
      ReachDep(records, top, cur, d);
    }
  }

  lemma StartSound(records: Records, top: seq<Name>)
    ensures Sound(records, top, {}, top) && Complete(records, top, {}, top)
  {
    forall n | n in top ensures Reachable(records, top, n) { ReachTop(records, top, n); }
  }

  lemma EmptyTodoComplete(records: Records, top: seq<Name>, seen: set<Name>)
    requires Sound(records, top, seen, []) && Complete(records, top, seen, [])
    ensures forall n :: n in seen <==> Reachable(records, top, n)
  {
    forall n | Reachable(records, top, n) ensures n in seen {
      var path :| Chain(records, path) && path[0] in top && path[|path| - 1] == n;
      ChainStays(records, path, seen);
    }
  }

  /** The names reachable from the requested packages, and those of them without a record. */
  method Closure(records: Records, top: seq<Name>) returns (seen: set<Name>, missing: set<Name>)
    ensures forall n :: n in seen <==> Reachable(records, top, n)
    ensures missing == set n | n in seen && n !in records
  {
    hide Reachable, Universe;
    seen, missing := {}, {};
    var todo := top;
    StartSound(records, top);
    while todo != []
      invariant Sound(records, top, seen, todo) && Complete(records, top, seen, todo)
      invariant missing == set n | n in seen && n !in records
      decreases Universe(records, top) - seen, |todo|
    {
      var cur := todo[|todo| - 1];
      assert todo == todo[..|todo| - 1] + [cur];
      todo := todo[..|todo| - 1];
      if cur in seen { continue; }
      seen := seen + {cur};
      if cur !in records {
        missing := missing + {cur};
        continue;
      }
      DepsSound(records, top, cur);
      todo := AppendUnseen(todo, records[cur], seen);
    }
    EmptyTodoComplete(records, top, seen);
  }
}
