/**
 The window of an insert command: its drvs are visible in the shared view before their
 references are. What a reader sees at each point is told from the command and from the
 service before it.
 */
module InsertWindows {
  import opened Drvs
  import opened Reachability
  import opened Graphs
  import opened GraphOps
  import opened Services
  import opened Mirror
  import opened Handles
  import opened Traces

  // ---------------------------------------------------------------- what an insertion leaves cached

  function Ids(drvs: seq<Drv>): seq<DrvId> {
    seq(|drvs|, i requires 0 <= i < |drvs| => drvs[i].id)
  }

  /** The last elements of a list, as many as fit. */
  function LastOf(s: seq<DrvId>, capacity: nat): seq<DrvId> {
    if |s| <= capacity then s else s[|s| - capacity..]
  }

  lemma LastOfLast(a: seq<DrvId>, b: seq<DrvId>, capacity: nat)
    ensures LastOf(LastOf(a, capacity) + b, capacity) == LastOf(a + b, capacity)
  {
    if |a| > capacity {
      assert LastOf(a, capacity) + b == (a + b)[|a| - capacity..];
    }
  }

  /** `id` is among the drvs that are cached once `drvs` are inserted, told from the cache before. */
  predicate Survives(g: Graph, drvs: seq<Drv>, id: DrvId) {
    id in LastOf(g.order + Ids(drvs), g.capacity)
  }

  lemma InsertNodeOrder(g: Graph, drv: Drv, now: nat)
    requires drv.id !in g.nodes
    ensures var h := InsertNode(g, drv, now).graph;
            h.capacity == g.capacity && h.order == LastOf(g.order + [drv.id], g.capacity)
  {
  }

  ghost predicate DistinctUncached(g: Graph, drvs: seq<Drv>) {
    && (forall i, j :: 0 <= i < j < |drvs| ==> drvs[i].id != drvs[j].id)
    && (forall i :: 0 <= i < |drvs| ==> drvs[i].id !in g.nodes)
  }

  /** The state that the command leaves a drv in: as inserted, or as it was. */
  ghost predicate InsertedIn(drvs: seq<Drv>, id: DrvId, state: BuildState) {
    exists k :: 0 <= k < |drvs| && drvs[k].id == id && drvs[k].state == state
  }

  lemma InsertNodeNodes(g: Graph, drv: Drv, now: nat, n: DrvId)
    requires drv.id !in g.nodes && n in InsertNode(g, drv, now).graph.nodes
    ensures var h := InsertNode(g, drv, now).graph;
            if n == drv.id then h.nodes[n].state == drv.state else n in g.nodes && h.nodes[n] == g.nodes[n]
  {
  }

  lemma DistinctUncachedCons(g: Graph, drvs: seq<Drv>, now: nat)
    requires drvs != [] && DistinctUncached(g, drvs)
    ensures DistinctUncached(InsertNode(g, drvs[0], now).graph, drvs[1..])
  {
    forall i | 0 <= i < |drvs[1..]| ensures drvs[1..][i].id !in InsertNode(g, drvs[0], now).graph.nodes {
      if drvs[1..][i].id in InsertNode(g, drvs[0], now).graph.nodes { InsertNodeNodes(g, drvs[0], now, drvs[1..][i].id); }
    }
  }

  lemma OrderCons(order: seq<DrvId>, drvs: seq<Drv>, capacity: nat)
    requires drvs != []
    ensures LastOf(LastOf(order + [drvs[0].id], capacity) + Ids(drvs[1..]), capacity) == LastOf(order + Ids(drvs), capacity)
  {
    LastOfLast(order + [drvs[0].id], Ids(drvs[1..]), capacity);
    assert order + [drvs[0].id] + Ids(drvs[1..]) == order + Ids(drvs);
  }

  /** The cache after an insertion of uncached drvs: the newest ids, old and new, as many as fit. */
  lemma {:induction false} InsertsOrder(g: Graph, drvs: seq<Drv>, now: nat)
    requires DistinctUncached(g, drvs)
    ensures RunOps(g, Inserts(drvs, now)).order == LastOf(g.order + Ids(drvs), g.capacity)
    decreases |drvs|
  {
    if drvs == [] {
      assert g.order + Ids(drvs) == g.order;
    } else {
      InsertNodeOrder(g, drvs[0], now);
      DistinctUncachedCons(g, drvs, now);
      InsertsOrder(InsertNode(g, drvs[0], now).graph, drvs[1..], now);
      OrderCons(g.order, drvs, g.capacity);
      assert Inserts(drvs, now)[1..] == Inserts(drvs[1..], now);
    }
  }

  lemma {:induction false} InsertsState(g: Graph, drvs: seq<Drv>, now: nat, n: DrvId)
    requires DistinctUncached(g, drvs) && n in RunOps(g, Inserts(drvs, now)).nodes
    ensures var state := RunOps(g, Inserts(drvs, now)).nodes[n].state;
            InsertedIn(drvs, n, state) || (n in g.nodes && g.nodes[n].state == state)
    decreases |drvs|
  {
    if drvs != [] {
      var h := InsertNode(g, drvs[0], now).graph;
      var state := RunOps(g, Inserts(drvs, now)).nodes[n].state;
      assert Inserts(drvs, now)[1..] == Inserts(drvs[1..], now);
      DistinctUncachedCons(g, drvs, now);
      InsertsState(h, drvs[1..], now, n);
      if InsertedIn(drvs[1..], n, state) {
        var k :| 0 <= k < |drvs[1..]| && drvs[1..][k].id == n && drvs[1..][k].state == state;
        assert drvs[k + 1] == drvs[1..][k];
      } else {
        InsertNodeNodes(g, drvs[0], now, n);
      }
    }
  }

  lemma {:induction false} LinkEachStates(s: Service, refs: Refs, n: DrvId)
    requires n in s.graph.nodes
    ensures n in LinkEach(s, refs).graph.nodes && LinkEach(s, refs).graph.nodes[n].state == s.graph.nodes[n].state
    decreases |refs|
  {
    if refs != [] { LinkEachStates(InsertRef(s, refs[0].0, refs[0].1), refs[1..], n); }
  }

  // ---------------------------------------------------------------- the insert window

  lemma {:induction false} InsertEachRefs(s: Service, drvs: seq<Drv>, now: nat)
    ensures InsertEach(s, drvs, now).db.refs == s.db.refs
    decreases |drvs|
  {
    if drvs != [] { InsertEachRefs(InsertDrv(s, drvs[0], now), drvs[1..], now); }
  }

  lemma {:induction false} LinkEachRefs(s: Service, refs: Refs)
    ensures forall e :: e in LinkEach(s, refs).db.refs <==> e in s.db.refs || e in refs
    ensures LinkEach(s, refs).graph.nodes.Keys == s.graph.nodes.Keys
    decreases |refs|
  {
    if refs != [] {
      var t := InsertRef(s, refs[0].0, refs[0].1);
      LinkEachRefs(t, refs[1..]);
      assert forall e :: e in t.db.refs <==> e in s.db.refs || e == refs[0];
    }
  }

  lemma {:induction false} InsertEachStored(s: Service, drvs: seq<Drv>, now: nat)
    ensures forall id :: id in InsertEach(s, drvs, now).db.drvs <==> Known(s, drvs, id)
    decreases |drvs|
  {
    if drvs != [] {
      var t := InsertDrv(s, drvs[0], now);
      InsertEachStored(t, drvs[1..], now);
      forall id ensures Known(t, drvs[1..], id) <==> Known(s, drvs, id) {
        if i :| 0 <= i < |drvs[1..]| && drvs[1..][i].id == id { assert drvs[i + 1].id == id; }
        if i :| 0 < i < |drvs| && drvs[i].id == id { assert drvs[1..][i - 1].id == id; }
      }
    }
  }

  lemma {:induction false} LinkEachStored(s: Service, refs: Refs)
    ensures LinkEach(s, refs).db.drvs == s.db.drvs
    decreases |refs|
  {
    if refs != [] { LinkEachStored(InsertRef(s, refs[0].0, refs[0].1), refs[1..]); }
  }

  /** The service in the middle of an insert command: all nodes and the first `j` references are in. */
  function Midway(s: Service, drvs: seq<Drv>, refs: Refs, now: nat, j: nat): Service
    requires j <= |refs|
  {
    LinkEach(InsertEach(s, drvs, now), refs[..j])
  }

  lemma MidwayHasInvariant(s: Service, drvs: seq<Drv>, refs: Refs, now: nat, j: nat)
    requires Invariant(s) && NewDrvs(s, drvs, refs) && j <= |refs|
    ensures Invariant(Midway(s, drvs, refs, now, j))
  {
    InsertEachKeeps(s, drvs, now);
    assert forall e :: e in refs[..j] ==> e in refs;
    LinkEachKeeps(InsertEach(s, drvs, now), refs[..j]);
  }

  lemma MidwayCaches(s: Service, drvs: seq<Drv>, refs: Refs, now: nat, j: nat, n: DrvId)
    requires DistinctUncached(s.graph, drvs) && j <= |refs|
    ensures n in Midway(s, drvs, refs, now, j).graph.nodes <==> Survives(s.graph, drvs, n)
    ensures n in InsertEach(s, drvs, now).graph.nodes <==> Survives(s.graph, drvs, n)
  {
    var g := InsertEach(s, drvs, now).graph;
    InsertEachIsOps(s, drvs, now);
    InsertsOrder(s.graph, drvs, now);
    LinkEachRefs(InsertEach(s, drvs, now), refs[..j]);
    assert n in g.order <==> n in g.nodes;
  }

  /** `y` will be cached, and it is a drv that has succeeded or is inserted as one. */
  ghost predicate WillSucceed(s: Service, drvs: seq<Drv>, y: DrvId) {
    Survives(s.graph, drvs, y) && (Succeeded(s.view, y) || InsertedIn(drvs, y, SUCCEEDED))
  }

  lemma DistinctState(drvs: seq<Drv>, id: DrvId, a: BuildState, b: BuildState)
    requires forall i, j :: 0 <= i < j < |drvs| ==> drvs[i].id != drvs[j].id
    requires InsertedIn(drvs, id, a) && InsertedIn(drvs, id, b)
    ensures a == b
  {
  }

  lemma MidwayState(s: Service, drvs: seq<Drv>, refs: Refs, now: nat, j: nat, y: DrvId)
    requires DistinctUncached(s.graph, drvs) && j <= |refs| && Survives(s.graph, drvs, y)
    ensures var mid := Midway(s, drvs, refs, now, j);
            && y in mid.graph.nodes
            && (mid.graph.nodes[y].state == SUCCEEDED <==>
                InsertedIn(drvs, y, SUCCEEDED) || (y in s.graph.nodes && s.graph.nodes[y].state == SUCCEEDED))
  {
    MidwayCaches(s, drvs, refs, now, j, y);
    LinkEachStates(InsertEach(s, drvs, now), refs[..j], y);
    InsertEachIsOps(s, drvs, now);
    InsertsState(s.graph, drvs, now, y);
    var state := InsertEach(s, drvs, now).graph.nodes[y].state;
    if InsertedIn(drvs, y, state) && InsertedIn(drvs, y, SUCCEEDED) { DistinctState(drvs, y, state, SUCCEEDED); }
  }

  lemma MirroredSuccess(s: Service, y: DrvId)
    requires Mirrored(s)
    ensures Succeeded(s.view, y) <==> y in s.graph.nodes && s.graph.nodes[y].state == SUCCEEDED
  {
  }

  lemma NewIsUncached(s: Service, drvs: seq<Drv>, refs: Refs)
    requires Invariant(s) && NewDrvs(s, drvs, refs)
    ensures DistinctUncached(s.graph, drvs)
  {
  }

  lemma MidwaySucceeds(s: Service, drvs: seq<Drv>, refs: Refs, now: nat, j: nat, y: DrvId)
    requires Invariant(s) && NewDrvs(s, drvs, refs) && j <= |refs|
    ensures Succeeded(Midway(s, drvs, refs, now, j).view, y) <==> WillSucceed(s, drvs, y)
  {
    NewIsUncached(s, drvs, refs);
    MidwayHasInvariant(s, drvs, refs, now, j);
    MidwayCaches(s, drvs, refs, now, j, y);
    MirroredSuccess(Midway(s, drvs, refs, now, j), y);
    MirroredSuccess(s, y);
    if Survives(s.graph, drvs, y) { MidwayState(s, drvs, refs, now, j, y); }
  }

  /**
   InsertDrvs exposes new drvs before it links their references. After the first `j` references a
   new drv looks buildable exactly if it is still cached and those of its references that are
   linked already succeed, told from the command and from the service before it.
   */
  lemma InsertWindow(s: Service, drvs: seq<Drv>, refs: Refs, now: nat, i: nat, j: nat)
    requires Invariant(s) && NewDrvs(s, drvs, refs) && i < |drvs| && j <= |refs|
    ensures var x := drvs[i].id;
            && !Handles.IsBuildable(s.view, x)
            && (Handles.IsBuildable(Midway(s, drvs, refs, now, j).view, x) <==>
                Survives(s.graph, drvs, x) && forall y :: (x, y) in refs[..j] ==> WillSucceed(s, drvs, y))
  {
    var x, mid := drvs[i].id, Midway(s, drvs, refs, now, j);
    NewIsUncached(s, drvs, refs);
    MidwayHasInvariant(s, drvs, refs, now, j);
    MidwayCaches(s, drvs, refs, now, j, x);
    if Survives(s.graph, drvs, x) {
      InsertEachRefs(s, drvs, now);
      LinkEachRefs(InsertEach(s, drvs, now), refs[..j]);
      assert forall y :: (x, y) in mid.db.refs <==> (x, y) in refs[..j];
      BuildableByStoredRefs(mid, x);
      forall y ensures Succeeded(mid.view, y) <==> WillSucceed(s, drvs, y) { MidwaySucceeds(s, drvs, refs, now, j, y); }
    }
  }

  lemma SplitAt(refs: Refs, j: nat)
    requires j <= |refs|
    ensures forall e :: e in refs <==> e in refs[..j] || e in refs[j..]
  {
    assert refs == refs[..j] + refs[j..];
  }

  /** The view after `j` references misleads about a new drv exactly if the first reference that holds it back comes later. */
  lemma WindowMisleadsIff(s: Service, drvs: seq<Drv>, refs: Refs, now: nat, i: nat, j: nat)
    requires Invariant(s) && NewDrvs(s, drvs, refs) && i < |drvs| && j <= |refs|
    ensures var x := drvs[i].id;
            (Handles.IsBuildable(Midway(s, drvs, refs, now, j).view, x)
             && !Handles.IsBuildable(Step(s, InsertDrvsCmd(drvs, refs), now).view, x))
            <==> && Survives(s.graph, drvs, x)
                 && (forall y :: (x, y) in refs[..j] ==> WillSucceed(s, drvs, y))
                 && (exists y :: (x, y) in refs[j..] && !WillSucceed(s, drvs, y))
  {
    var x := drvs[i].id;
    InsertWindow(s, drvs, refs, now, i, j);
    InsertWindow(s, drvs, refs, now, i, |refs|);
    assert refs[..|refs|] == refs;
    SplitAt(refs, j);
  }
}
