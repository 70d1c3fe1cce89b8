/**
 The handle that schedulers hold: lock-free reads of the shared view, what they mean in
 terms of the authoritative graph, and what a read may see while a command is writing.
 */
module Handles {
  import opened Wrappers
  import opened Sequences
  import opened Drvs
  import opened Reachability
  import opened Graphs
  import opened Services
  import opened Mirror

  predicate Succeeded(view: View, id: DrvId) {
    id in view && view[id].state == SUCCEEDED
  }

  predicate IsBuildable(view: View, id: DrvId) {
    id in view && forall i :: 0 <= i < |view[id].dependencies| ==> Succeeded(view, view[id].dependencies[i])
  }

  function StateOf(view: View, id: DrvId): Option<BuildState> {
    if id in view then Some(view[id].state) else None
  }

  /** The dependencies that hold a drv back, each with the state the view has for it. */
  function Blocking(view: View, deps: seq<DrvId>): seq<(DrvId, Option<BuildState>)> {
    if deps == [] then []
    else (if Succeeded(view, deps[0]) then [] else [(deps[0], StateOf(view, deps[0]))]) + Blocking(view, deps[1..])
  }

  function BlockingDeps(view: View, id: DrvId): seq<(DrvId, Option<BuildState>)> {
    if id in view then Blocking(view, view[id].dependencies) else []
  }

  method GetDependentsFromView(view: View, id: DrvId) returns (dependents: seq<DrvId>)
    ensures NoDuplicates(dependents)
    ensures forall n :: n in dependents <==> n in view && id in view[n].dependencies
  {
    dependents := [];
    var todo := view.Keys;
    while todo != {}
      invariant todo <= view.Keys && NoDuplicates(dependents)
      invariant forall n :: n in dependents <==> n in view && n !in todo && id in view[n].dependencies
    {
      var n :| n in todo;
      if id in view[n].dependencies {
        dependents := dependents + [n];
      }
      todo := todo - {n};
    }
  }

  // ---------------------------------------------------------------- reads between commands

  lemma {:induction false} BlockingIsWhatHolds(view: View, deps: seq<DrvId>)
    ensures forall d, st :: (d, st) in Blocking(view, deps) <==>
              d in deps && st == StateOf(view, d) && st != Some(SUCCEEDED)
  {
    if deps != [] {
      BlockingIsWhatHolds(view, deps[1..]);
    }
  }

  lemma {:induction false} BlockingConcat(view: View, a: seq<DrvId>, b: seq<DrvId>)
    ensures Blocking(view, a + b) == Blocking(view, a) + Blocking(view, b)
    decreases |a|
  {
    if a == [] {
      assert a + b == b;
    } else {
      assert (a + b)[0] == a[0] && (a + b)[1..] == a[1..] + b;
      BlockingConcat(view, a[1..], b);
    }
  }

  lemma BlockingOne(view: View, d: DrvId)
    ensures Blocking(view, [d]) ==
            if d !in view then [(d, None)]
            else if view[d].state == Completed(Success) then []
            else [(d, Some(view[d].state))]
  {
    var deps := [d];
    assert deps[0] == d && deps[1..] == [];
  }

  /**
   What `blocking_deps` answers: nothing for an unknown drv, else, in the order of the
   dependencies, each that has not succeeded with its state in the view, or none.
   */
  lemma BlockingDepsAre(view: View, id: DrvId, before: seq<DrvId>, d: DrvId, after: seq<DrvId>)
    ensures id !in view ==> BlockingDeps(view, id) == []
    ensures id in view && view[id].dependencies == [] ==> BlockingDeps(view, id) == []
    ensures id in view && view[id].dependencies == before + [d] + after ==>
              BlockingDeps(view, id) ==
              Blocking(view, before)
              + (if d !in view then [(d, None)] else if view[d].state == Completed(Success) then [] else [(d, Some(view[d].state))])
              + Blocking(view, after)
  {
    BlockingConcat(view, before + [d], after);
    BlockingConcat(view, before, [d]);
    BlockingOne(view, d);
  }

  /** As a set: exactly the dependencies that have not succeeded. */
  lemma BlockingDepsContain(view: View, id: DrvId, d: DrvId, st: Option<BuildState>)
    ensures (d, st) in BlockingDeps(view, id) <==>
            && id in view && d in view[id].dependencies
            && st == (if d in view then Some(view[d].state) else None) && st != Some(Completed(Success))
  {
    if id in view { BlockingIsWhatHolds(view, view[id].dependencies); }
  }

  /** A drv in the view is buildable exactly when nothing is reported as blocking it. */
  lemma BuildableIffNothingBlocks(view: View, id: DrvId)
    ensures IsBuildable(view, id) <==> id in view && BlockingDeps(view, id) == []
  {
    if id in view {
      var deps := view[id].dependencies;
      BlockingIsWhatHolds(view, deps);
      if BlockingDeps(view, id) == [] {
        forall i | 0 <= i < |deps| ensures Succeeded(view, deps[i]) {
          assert (deps[i], StateOf(view, deps[i])) !in Blocking(view, deps);
        }
      } else {
        var e := BlockingDeps(view, id)[0];
        assert (e.0, e.1) in Blocking(view, deps);
      }
    }
  }

  /** Between commands the lock-free answer is the graph's answer. */
  lemma HandleAgreesWithGraph(s: Service, id: DrvId)
    requires Invariant(s)
    ensures IsBuildable(s.view, id) <==> Graphs.IsBuildable(s.graph, id)
  {
    ProjectionKeepsAnswers(s.graph, id);
  }

  lemma ProjectionKeepsAnswers(g: Graph, id: DrvId)
    ensures IsBuildable(Projection(g.nodes), id) <==> Graphs.IsBuildable(g, id)
  {
    var view := Projection(g.nodes);
    if id in g.nodes {
      var deps := g.nodes[id].dependencies;
      assert view[id].dependencies == deps;
      assert forall i :: 0 <= i < |deps| ==> (Succeeded(view, deps[i]) <==> deps[i] in g.nodes && g.nodes[deps[i]].state == SUCCEEDED);
    }
  }

  /** A cached drv is buildable exactly when every stored reference of it is cached and succeeded. */
  lemma BuildableByStoredRefs(s: Service, id: DrvId)
    requires Invariant(s) && id in s.graph.nodes
    ensures IsBuildable(s.view, id) <==> forall y :: (id, y) in s.db.refs ==> Succeeded(s.view, y)
  {
    assert AdjacentAt(s.graph.nodes, s.db.refs, id);
    var deps := s.view[id].dependencies;
    assert forall y :: y in deps <==> (id, y) in s.db.refs;
    if forall y :: (id, y) in s.db.refs ==> Succeeded(s.view, y) {
      forall i | 0 <= i < |deps| ensures Succeeded(s.view, deps[i]) { assert deps[i] in deps; }
    }
  }

  /** For a cached drv the scan of the view finds exactly the cached part of its dependent list. */
  lemma ScanFindsCachedDependents(s: Service, id: DrvId, n: DrvId)
    requires Invariant(s) && id in s.graph.nodes
    ensures n in s.view && id in s.view[n].dependencies
       <==> n in s.graph.nodes && n in s.graph.nodes[id].dependents
  {
    assert AdjacentAt(s.graph.nodes, s.db.refs, id);
    if n in s.graph.nodes { assert AdjacentAt(s.graph.nodes, s.db.refs, n); }
  }

  // ---------------------------------------------------------------- reads during a command

  /** One write to the shared view: the state of one entry, if it is there. */
  function Write(view: View, id: DrvId, state: BuildState): View {
    SetViewState(view, {id}, state)
  }

  /** A write that keeps entries and dependencies and makes nothing succeed. */
  ghost predicate Downgrade(before: View, after: View) {
    && before.Keys == after.Keys
    && forall d :: d in before ==>
         && after[d].dependencies == before[d].dependencies
         && (after[d].state == SUCCEEDED ==> before[d].state == SUCCEEDED)
  }

  /** The successive views of commands that only downgrade. */
  ghost predicate Downgrading(trace: seq<View>) {
    && trace != []
    && forall i :: 0 < i < |trace| ==> Downgrade(trace[i - 1], trace[i])
  }

  /**
   A scan of `id`: it reads the entry of `id` at instant `start` and then one dependency
   after the other, each at a later or the same instant.
   */
  predicate IsScan(trace: seq<View>, id: DrvId, start: nat, instants: seq<nat>) {
    && start < |trace|
    && (id in trace[start] ==> |instants| == |trace[start][id].dependencies|)
    && (forall k :: 0 <= k < |instants| ==> start <= instants[k] < |trace|)
    && (forall j, k :: 0 <= j < k < |instants| ==> instants[j] <= instants[k])
  }

  predicate ScanAnswer(trace: seq<View>, id: DrvId, start: nat, instants: seq<nat>)
    requires IsScan(trace, id, start, instants)
  {
    && id in trace[start]
    && forall k :: 0 <= k < |instants| ==> Succeeded(trace[instants[k]], trace[start][id].dependencies[k])
  }

  /** Along a downgrading trace entries and dependencies stay, and success is only ever lost. */
  lemma {:induction false} DowngradingOnlyLoses(trace: seq<View>, i: nat, j: nat, d: DrvId)
    requires Downgrading(trace) && i <= j < |trace|
    ensures d in trace[i] <==> d in trace[j]
    ensures d in trace[i] ==> trace[i][d].dependencies == trace[j][d].dependencies
    ensures Succeeded(trace[j], d) ==> Succeeded(trace[i], d)
    decreases j - i
  {
    if i < j {
      DowngradingOnlyLoses(trace, i, j - 1, d);
      assert Downgrade(trace[j - 1], trace[j]);
    }
  }

  /**
   A scan that overlaps propagations and clears, however they interleave, is squeezed between
   the view before them and the view after them: it answers true only for a drv that was
   buildable before, and it does answer true for one that still is afterwards.
   */
  lemma ScanIsSqueezed(trace: seq<View>, id: DrvId, start: nat, instants: seq<nat>)
    requires Downgrading(trace) && IsScan(trace, id, start, instants)
    ensures ScanAnswer(trace, id, start, instants) ==> IsBuildable(trace[0], id)
    ensures IsBuildable(trace[|trace| - 1], id) ==> ScanAnswer(trace, id, start, instants)
  {
    var last := |trace| - 1;
    DowngradingOnlyLoses(trace, 0, start, id);
    DowngradingOnlyLoses(trace, start, last, id);
    if ScanAnswer(trace, id, start, instants) {
      var deps := trace[0][id].dependencies;
      forall k | 0 <= k < |deps| ensures Succeeded(trace[0], deps[k]) {
        DowngradingOnlyLoses(trace, 0, instants[k], deps[k]);
      }
    }
    if IsBuildable(trace[last], id) {
      var deps := trace[last][id].dependencies;
      forall k | 0 <= k < |instants| ensures Succeeded(trace[instants[k]], deps[k]) {
        DowngradingOnlyLoses(trace, instants[k], last, deps[k]);
      }
    }
  }

  /** The views a command passes through when it writes `state` to each of `ids` in turn. */
  function Writes(view: View, ids: seq<DrvId>, state: BuildState): (trace: seq<View>)
    ensures |trace| == |ids| + 1 && trace[0] == view
  {
    if ids == [] then [view]
    else [view] + Writes(Write(view, ids[0], state), ids[1..], state)
  }

  lemma {:induction false} WritesDowngrade(view: View, ids: seq<DrvId>, state: BuildState)
    requires state != SUCCEEDED
    ensures Downgrading(Writes(view, ids, state))
  {
    if ids != [] {
      var trace, rest := Writes(view, ids, state), Writes(Write(view, ids[0], state), ids[1..], state);
      WritesDowngrade(Write(view, ids[0], state), ids[1..], state);
      forall i | 0 < i < |trace| ensures Downgrade(trace[i - 1], trace[i]) {
        assert trace[i] == rest[i - 1];
        if i > 1 { assert Downgrade(rest[i - 2], rest[i - 1]); }
      }
    }
  }

  /** The writes of a command lead, in any order, from the view before it to the view after it. */
  lemma {:induction false} WritesReachTheResult(view: View, ids: seq<DrvId>, state: BuildState)
    ensures var trace := Writes(view, ids, state); trace[|trace| - 1] == SetViewState(view, Elements(ids), state)
  {
    if ids == [] {
      assert SetViewState(view, Elements(ids), state) == view;
    } else {
      var next := Write(view, ids[0], state);
      WritesReachTheResult(next, ids[1..], state);
      assert Elements(ids) == {ids[0]} + Elements(ids[1..]);
      assert SetViewState(next, Elements(ids[1..]), state) == SetViewState(view, Elements(ids), state);
    }
  }

  /** A scan during PropagateFailure, whatever the order in which the blocked drvs are written. */
  lemma ScanDuringPropagate(s: Service, failed: DrvId, order: seq<DrvId>, id: DrvId, start: nat, instants: seq<nat>)
    requires forall d :: d in order <==> d in TransitiveDependents(s.graph.nodes, failed)
    requires IsScan(Writes(s.view, order, TransitiveFailure), id, start, instants)
    ensures var trace := Writes(s.view, order, TransitiveFailure);
            && trace[|trace| - 1] == Services.PropagateFailure(s, failed).view
            && (ScanAnswer(trace, id, start, instants) ==> IsBuildable(s.view, id))
            && (IsBuildable(Services.PropagateFailure(s, failed).view, id) ==> ScanAnswer(trace, id, start, instants))
  {
    assert Elements(order) == TransitiveDependents(s.graph.nodes, failed);
    WritesReachTheResult(s.view, order, TransitiveFailure);
    WritesDowngrade(s.view, order, TransitiveFailure);
    ScanIsSqueezed(Writes(s.view, order, TransitiveFailure), id, start, instants);
  }

  /** A scan during ClearFailure, whatever the order in which the freed drvs are written. */
  lemma ScanDuringClear(s: Service, failed: DrvId, order: seq<DrvId>, id: DrvId, start: nat, instants: seq<nat>)
    requires forall d :: d in order <==> d in Graphs.Unblocked(s.graph, failed)
    requires IsScan(Writes(s.view, order, Queued), id, start, instants)
    ensures var trace := Writes(s.view, order, Queued);
            && trace[|trace| - 1] == Services.ClearFailure(s, failed).view
            && (ScanAnswer(trace, id, start, instants) ==> IsBuildable(s.view, id))
            && (IsBuildable(Services.ClearFailure(s, failed).view, id) ==> ScanAnswer(trace, id, start, instants))
  {
    assert Elements(order) == Graphs.Unblocked(s.graph, failed);
    WritesReachTheResult(s.view, order, Queued);
    WritesDowngrade(s.view, order, Queued);
    ScanIsSqueezed(Writes(s.view, order, Queued), id, start, instants);
  }
}
