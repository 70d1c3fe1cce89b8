/**
 The store's transitive references of a derivation: a breadth-first search that removes
 duplicates when it takes a path from the queue, over a store in which lookups may fail.
 */
module Requisites {
  import opened Sequences

  /** A finite store; a path without an entry is one whose lookup fails. */
  type Store = map<string, seq<string>>

  predicate IsDrv(path: string) {
    |path| >= 4 && path[|path| - 4..] == ".drv"
  }

  /** `from` was looked up successfully and refers to the derivation `to`. */
  predicate Refers(store: Store, from: string, to: string) {
    from in store && to in store[from] && IsDrv(to)
  }

  predicate IsPath(store: Store, p: seq<string>) {
    p != [] && forall i :: 0 < i < |p| ==> Refers(store, p[i - 1], p[i])
  }

  /** Reachable through references of successfully looked-up paths. */
  ghost predicate Reachable(store: Store, root: string, path: string) {
    exists p :: IsPath(store, p) && p[0] == root && p[|p| - 1] == path
  }

  ghost predicate ClosedIn(store: Store, s: set<string>) {
    forall a, b :: a in s && Refers(store, a, b) ==> b in s
  }

  // ---------------------------------------------------------------- reachability

  lemma ReachableStep(store: Store, root: string, a: string, b: string)
    requires Reachable(store, root, a) && Refers(store, a, b)
    ensures Reachable(store, root, b)
  {
    var p :| IsPath(store, p) && p[0] == root && p[|p| - 1] == a;
    var q := p + [b];
    assert IsPath(store, q) && q[0] == root && q[|q| - 1] == b;
  }

  lemma {:induction false} PathStaysIn(store: Store, s: set<string>, p: seq<string>)
    requires ClosedIn(store, s) && IsPath(store, p) && p[0] in s
    ensures p[|p| - 1] in s
    decreases |p|
  {
    if |p| > 1 {
      assert Refers(store, p[0], p[1]);
      forall i | 0 < i < |p| - 1 ensures Refers(store, p[1..][i - 1], p[1..][i]) {
        assert Refers(store, p[i], p[i + 1]);
      }
      PathStaysIn(store, s, p[1..]);
    }
  }

  /** Everything that occurs in the store, and the root. */
  function Universe(store: Store, root: string): (r: set<string>)
    ensures root in r && forall a, b :: Refers(store, a, b) ==> b in r
  {
    {root} + set a, b | a in store && b in store[a] :: b
  }

  ghost function ReachSet(store: Store, root: string): (r: set<string>)
    ensures forall x :: x in r <==> Reachable(store, root, x)
  {
    forall x | Reachable(store, root, x) ensures x in Universe(store, root) {
      var p :| IsPath(store, p) && p[0] == root && p[|p| - 1] == x;
      if |p| > 1 { assert Refers(store, p[|p| - 2], p[|p| - 1]); }
    }
    set x | x in Universe(store, root) && Reachable(store, root, x)
  }

  lemma ReachSetClosed(store: Store, root: string)
    ensures root in ReachSet(store, root) && ClosedIn(store, ReachSet(store, root))
  {
    assert IsPath(store, [root]);
    forall a, b | a in ReachSet(store, root) && Refers(store, a, b) ensures b in ReachSet(store, root) {
      ReachableStep(store, root, a, b);
    }
  }

  lemma ReachSetLeast(store: Store, root: string, s: set<string>)
    requires root in s && ClosedIn(store, s)
    ensures ReachSet(store, root) <= s
  {
    forall x | x in ReachSet(store, root) ensures x in s {
      var p :| IsPath(store, p) && p[0] == root && p[|p| - 1] == x;
      PathStaysIn(store, s, p);
    }
  }

  // ---------------------------------------------------------------- the search

  /** Appends the derivations among the references that were not visited yet, duplicates included. */
  method Enqueue(references: seq<string>, visited: set<string>, queue: seq<string>) returns (queue': seq<string>)
    ensures queue <= queue'
    ensures forall x :: x in queue' <==> x in queue || (x in references && IsDrv(x) && x !in visited)
  {
    queue' := queue;
    for i := 0 to |references|
      invariant queue <= queue'
      invariant forall x :: x in queue' <==> x in queue || (x in references[..i] && IsDrv(x) && x !in visited)
    {
      if IsDrv(references[i]) && references[i] !in visited {
        queue' := queue' + [references[i]];
      }
      assert references[..i + 1] == references[..i] + [references[i]];
    }
    assert references[..|references|] == references;
  }

  /** Whatever a visited path refers to is visited or waiting. */
  ghost predicate Frontier(store: Store, visited: set<string>, queue: seq<string>) {
    forall a, b :: a in visited && Refers(store, a, b) ==> b in visited || b in queue
  }

  lemma FrontierStep(store: Store, visited: set<string>, queue: seq<string>, queue': seq<string>)
    requires queue != [] && Frontier(store, visited, queue)
    requires forall b :: Refers(store, queue[0], b) ==> b in visited + {queue[0]} || b in queue'
    requires queue[1..] <= queue'
    ensures Frontier(store, visited + {queue[0]}, queue')
  {
    forall a, b | a in visited + {queue[0]} && Refers(store, a, b)
      ensures b in visited + {queue[0]} || b in queue'
    {
      if a != queue[0] && b in queue && b != queue[0] {
        assert b in queue[1..];
        var i :| 0 <= i < |queue[1..]| && queue[1..][i] == b;
        assert queue'[i] == b;
      }
    }
  }

  /** A path belongs in the answer: a derivation other than the root whose lookup succeeds. */
  predicate Wanted(store: Store, root: string, x: string) {
    IsDrv(x) && x != root && x in store
  }

  method QueryRequisites(store: Store, root: string) returns (result: seq<string>)
    ensures NoDuplicates(result)
    ensures forall x :: x in result <==> Wanted(store, root, x) && Reachable(store, root, x)
  {
    result := [];
    var visited: set<string>, queue := {}, [root];
    ghost var reach := ReachSet(store, root);
    ReachSetClosed(store, root);
    while queue != []
      invariant visited <= reach && forall x :: x in queue ==> x in reach
      invariant root in visited || root in queue
      invariant Frontier(store, visited, queue)
      invariant NoDuplicates(result)
      invariant forall x :: x in result <==> Wanted(store, root, x) && x in visited
      decreases reach - visited, |queue|
    {
      var path, rest := queue[0], queue[1..];
      assert path in queue && forall x :: x in queue <==> x == path || x in rest;
      if path in visited {
        queue := rest;
      } else {
        var queue' := rest;
        if path in store {
          queue' := Enqueue(store[path], visited + {path}, rest);
          assert forall b :: b in store[path] && IsDrv(b) ==> Refers(store, path, b);
          if IsDrv(path) && path != root {
            result := result + [path];
          }
        }
        FrontierStep(store, visited, queue, queue');
        visited, queue := visited + {path}, queue';
      }
    }
    ReachSetLeast(store, root, visited);
  }

  // ---------------------------------------------------------------- the answer written out

  /** `p` leads from `root` to `x` along references of successfully looked-up paths to names that end in `.drv`. */
  ghost predicate DrvPath(store: Store, root: string, x: string, p: seq<string>) {
    && p != [] && p[0] == root && p[|p| - 1] == x
    && forall i :: 0 < i < |p| ==> DrvStep(store, p[i - 1], p[i])
  }

  ghost predicate DrvStep(store: Store, from: string, to: string) {
    from in store && to in store[from] && EndsInDrv(to)
  }

  ghost predicate EndsInDrv(name: string) {
    exists stem :: name == stem + ".drv"
  }

  lemma IsDrvIff(name: string)
    ensures IsDrv(name) <==> EndsInDrv(name)
  {
    if IsDrv(name) { assert name == name[..|name| - 4] + ".drv"; }
    if stem :| name == stem + ".drv" { assert name[|name| - 4..] == ".drv"; }
  }

  lemma ReachableIff(store: Store, root: string, x: string)
    ensures Reachable(store, root, x) <==> exists p :: DrvPath(store, root, x, p)
  {
    forall name ensures IsDrv(name) <==> EndsInDrv(name) { IsDrvIff(name); }
    if p :| IsPath(store, p) && p[0] == root && p[|p| - 1] == x {
      forall i | 0 < i < |p| ensures DrvStep(store, p[i - 1], p[i]) {
        assert Refers(store, p[i - 1], p[i]);
      }
      assert DrvPath(store, root, x, p);
    }
    if p :| DrvPath(store, root, x, p) {
      forall i | 0 < i < |p| ensures Refers(store, p[i - 1], p[i]) { assert DrvStep(store, p[i - 1], p[i]); }
      assert IsPath(store, p);
    }
  }

  /** The specification of the search in these terms. */
  lemma AnswerWrittenOut(store: Store, root: string, x: string)
    ensures Wanted(store, root, x) && Reachable(store, root, x) <==>
            EndsInDrv(x) && x != root && x in store && exists p :: DrvPath(store, root, x, p)
  {
    IsDrvIff(x);
    ReachableIff(store, root, x);
  }
}
