/**
 Clears that release a drv too early: the failure map still names a drv that has lost its
 recorded blockers, through an eviction and a reload or through a re-insertion.
 */
module ReloadedFailures {
  import opened Sequences
  import opened Drvs
  import opened Reachability
  import opened Graphs
  import opened Services
  import opened FailureTracking

  /** The failures whose map entry names `n`. */
  function Naming(g: Graph, n: DrvId): set<DrvId> {
    set f | f in g.failureMap && n in g.failureMap[f]
  }

  // ---------------------------------------------------------------- from every graph

  /** The clear of `f` queues `n` although another failure on record names it. */
  predicate ReleasedEarly(g: Graph, f: DrvId, n: DrvId) {
    var h := Graphs.ClearFailure(g, f);
    n in Unblocked(g, f) && n in h.nodes && h.nodes[n].state == Queued && Naming(h, n) != {}
  }

  /**
   From every graph: a clear queues a drv although another failure on record names it if and
   only if the cleared failure and another one name it and no other blocker is recorded for it.
   */
  lemma ClearReleasesEarlyIff(g: Graph, f: DrvId, n: DrvId)
    ensures ReleasedEarly(g, f, n) <==>
            n in g.nodes && g.nodes[n].blockers <= {f} && f in Naming(g, n) && Naming(g, n) != {f}
  {
    ClearLeavesNames(g, f, n);
    RemovesAll(Naming(g, n), f);
    if n in g.nodes { NoOtherBlocker(g.nodes[n].blockers, f); }
  }

  lemma ClearLeavesNames(g: Graph, f: DrvId, n: DrvId)
    ensures Naming(Graphs.ClearFailure(g, f), n) == Naming(g, n) - {f}
  {
  }

  lemma NoOtherBlocker(blockers: set<DrvId>, f: DrvId)
    ensures blockers - {f} == {} <==> blockers <= {f}
  {
    assert blockers == (blockers - {f}) + (blockers * {f});
  }

  // ---------------------------------------------------------------- without recorded blockers

  /** `n` is cached and no blocker is recorded for it. */
  predicate Unrecorded(g: Graph, n: DrvId) {
    n in g.nodes && g.nodes[n].blockers == {}
  }

  lemma ClearUnrecorded(g: Graph, f: DrvId, n: DrvId)
    requires Unrecorded(g, n)
    ensures var h := Graphs.ClearFailure(g, f);
            && Unrecorded(h, n) && Naming(h, n) == Naming(g, n) - {f}
            && (n in Unblocked(g, f) <==> f in Naming(g, n))
            && (f in Naming(g, n) ==> h.nodes[n].state == Queued)
  {
  }

  lemma SplitFirst(naming: set<DrvId>, fs: seq<DrvId>)
    requires fs != [] && NoDuplicates(fs)
    ensures |naming * Elements(fs)| == (if fs[0] in naming then 1 else 0) + |(naming - {fs[0]}) * Elements(fs[1..])|
  {
    var rest := (naming - {fs[0]}) * Elements(fs[1..]);
    assert Elements(fs) == {fs[0]} + Elements(fs[1..]) && fs[0] !in fs[1..];
    if fs[0] in naming {
      assert naming * Elements(fs) == {fs[0]} + rest;
    } else {
      assert naming * Elements(fs) == rest;
    }
  }

  /** Without recorded blockers every clear of a failure that names the drv reports it again. */
  lemma {:induction false} UnrecordedReports(g: Graph, fs: seq<DrvId>, n: DrvId)
    requires Unrecorded(g, n) && NoDuplicates(fs)
    ensures Reports(g, fs, n) == |Naming(g, n) * Elements(fs)|
    decreases |fs|
  {
    if fs == [] {
      assert Naming(g, n) * Elements(fs) == {};
    } else {
      ClearUnrecorded(g, fs[0], n);
      UnrecordedReports(Graphs.ClearFailure(g, fs[0]), fs[1..], n);
      SplitFirst(Naming(g, n), fs);
    }
  }

  lemma PartSize(a: set<DrvId>, b: set<DrvId>)
    ensures |a * b| <= |a|
  {
    assert a == a * b + (a - b);
  }

  /** The members of a set in some order. */
  ghost function Enumeration(ids: set<DrvId>): (fs: seq<DrvId>)
    ensures NoDuplicates(fs) && forall f :: f in fs <==> f in ids
  {
    if ids == {} then []
    else
      var f :| f in ids;
      [f] + Enumeration(ids - {f})
  }

  lemma UnrecordedReportsOnceIff(g: Graph, n: DrvId)
    requires Unrecorded(g, n)
    ensures (forall fs :: NoDuplicates(fs) ==> Reports(g, fs, n) <= 1) <==> |Naming(g, n)| <= 1
  {
    var naming := Naming(g, n);
    forall fs | NoDuplicates(fs) ensures Reports(g, fs, n) <= |naming| {
      UnrecordedReports(g, fs, n);
      PartSize(naming, Elements(fs));
    }
    var all := Enumeration(naming);
    UnrecordedReports(g, all, n);
    assert naming * Elements(all) == naming;
    assert Reports(g, all, n) == |naming|;
  }

  // ---------------------------------------------------------------- reloading

  lemma AdmitIsUnrecorded(s: Service, drv: Drv, now: nat)
    ensures Unrecorded(Admit(s, drv, now).graph, drv.id)
    ensures Admit(s, drv, now).graph.failureMap == s.graph.failureMap
  {
  }

  lemma LinkingKeepsUnrecorded(g: Graph, edges: Refs, n: DrvId)
    requires Unrecorded(g, n)
    ensures Unrecorded(AddEdges(g, edges), n) && AddEdges(g, edges).failureMap == g.failureMap
  {
    AddEdgesFrame(g, edges);
    AddEdgesExtends(g, edges, n);
  }

  /** A reload brings a drv back without blockers and leaves the failure map alone. */
  lemma ReloadForgetsBlockers(s: Service, id: DrvId, now: nat)
    requires id !in s.graph.nodes && id in s.db.drvs
    ensures var g := EnsureLoaded(s, id, now).graph; Unrecorded(g, id) && g.failureMap == s.graph.failureMap
  {
    var m := Admit(s, StoredDrv(s.db, id), now).graph;
    var up, down := RefsFrom(s.db.refs, id), RefsTo(s.db.refs, id);
    AdmitIsUnrecorded(s, StoredDrv(s.db, id), now);
    LinkingKeepsUnrecorded(m, up, id);
    LinkingKeepsUnrecorded(AddEdges(m, up), down, id);
  }

  /**
   Right after a reload, clearing `f` queues the drv although another failure on record still
   names it, exactly if `f` and some other failure named it before the reload.
   */
  lemma ReloadReleasesEarlyIff(s: Service, id: DrvId, now: nat, f: DrvId)
    requires id !in s.graph.nodes && id in s.db.drvs
    ensures ReleasedEarly(EnsureLoaded(s, id, now).graph, f, id) <==> f in Naming(s.graph, id) && Naming(s.graph, id) != {f}
  {
    ReloadForgetsBlockers(s, id, now);
    ClearReleasesEarlyIff(EnsureLoaded(s, id, now).graph, f, id);
  }

  /**
   The same after any insertion of the drv: a re-insertion drops its blockers while the map
   keeps its names.
   */
  lemma InsertReleasesEarlyIff(s: Service, drv: Drv, now: nat, f: DrvId)
    ensures ReleasedEarly(InsertDrv(s, drv, now).graph, f, drv.id)
       <==> f in Naming(s.graph, drv.id) && Naming(s.graph, drv.id) != {f}
  {
    var s0 := s.(db := Store(s.db, drv));
    AdmitIsUnrecorded(s0, drv, now);
    ClearReleasesEarlyIff(Admit(s0, drv, now).graph, f, drv.id);
  }

  /** A reload, a propagation of `f` that reaches the drv and the clear of `f`: released although an older failure names it. */
  lemma PropagatedReleasesEarlyIff(g: Graph, f: DrvId, n: DrvId)
    requires n in g.nodes && n in TransitiveDependents(g.nodes, f)
    ensures ReleasedEarly(Graphs.PropagateFailure(g, f), f, n) <==> g.nodes[n].blockers <= {f} && Naming(g, n) - {f} != {}
  {
    PropagationNames(g, f, n);
    ClearReleasesEarlyIff(Graphs.PropagateFailure(g, f), f, n);
    RemovesAll(Naming(g, n) + {f}, f);
    assert Naming(g, n) + {f} - {f} == Naming(g, n) - {f};
  }

  lemma PropagationNames(g: Graph, f: DrvId, n: DrvId)
    requires n in g.nodes && n in TransitiveDependents(g.nodes, f)
    ensures var h := Graphs.PropagateFailure(g, f);
            n in h.nodes && h.nodes[n].blockers == g.nodes[n].blockers + {f} && Naming(h, n) == Naming(g, n) + {f}
  {
  }

  lemma RemovesAll(naming: set<DrvId>, f: DrvId)
    ensures f in naming ==> (naming - {f} == {} <==> naming == {f})
  {
    if f in naming && naming - {f} == {} { assert naming == (naming - {f}) + {f}; }
  }

  /** A reloaded drv is reported at most once, whatever is cleared, exactly if at most one failure names it. */
  lemma ReloadReportsOnceIff(s: Service, id: DrvId, now: nat)
    requires id !in s.graph.nodes && id in s.db.drvs
    ensures (forall fs :: NoDuplicates(fs) ==> Reports(EnsureLoaded(s, id, now).graph, fs, id) <= 1)
       <==> |Naming(s.graph, id)| <= 1
  {
    ReloadForgetsBlockers(s, id, now);
    UnrecordedReportsOnceIff(EnsureLoaded(s, id, now).graph, id);
  }
}
