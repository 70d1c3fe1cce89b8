/**
 Which of the drvs that depend on a failure through the stored references a propagation
 reaches: it walks the cached nodes, so an evicted drv in between hides the rest.
 */
module StoredDependents {
  import opened Drvs
  import opened Reachability
  import opened Services
  import opened Mirror
  import opened Startup
  import opened Recovery
  import opened FailureTracking
  import opened BelowCapacity

  /** Stored references make `n` depend on `f` by way of cached drvs only. */
  ghost predicate DependsThroughCache(s: Service, n: DrvId, f: DrvId) {
    exists p :: IsRefPath(s.db.refs, p) && AllIn(p, s.graph.nodes) && p[0] == f && p[|p| - 1] == n
  }

  predicate AllIn(p: seq<DrvId>, nodes: Nodes) {
    forall i :: 0 <= i < |p| ==> p[i] in nodes
  }

  /** Between cached drvs, the edges are the stored references. */
  lemma EdgeIsRow(s: Service, a: DrvId, b: DrvId)
    requires Adjacent(s) && a in s.graph.nodes
    ensures Edge(s.graph.nodes, a, b) ==> (b, a) in s.db.refs
    ensures b in s.graph.nodes && (b, a) in s.db.refs ==> Edge(s.graph.nodes, a, b)
  {
    assert AdjacentAt(s.graph.nodes, s.db.refs, a);
  }

  lemma PathIsCached(s: Service, p: seq<DrvId>)
    requires Adjacent(s) && IsPath(s.graph.nodes, p) && p[|p| - 1] in s.graph.nodes
    ensures IsRefPath(s.db.refs, p) && AllIn(p, s.graph.nodes)
  {
    forall i | 0 <= i < |p| ensures p[i] in s.graph.nodes {
      if i < |p| - 1 { assert Edge(s.graph.nodes, p[i], p[i + 1]); }
    }
    forall i | 0 < i < |p| ensures (p[i], p[i - 1]) in s.db.refs {
      assert Edge(s.graph.nodes, p[i - 1], p[i]);
      EdgeIsRow(s, p[i - 1], p[i]);
    }
  }

  lemma CachedPathIsPath(s: Service, p: seq<DrvId>)
    requires Adjacent(s) && IsRefPath(s.db.refs, p) && AllIn(p, s.graph.nodes)
    ensures IsPath(s.graph.nodes, p)
  {
    forall i | 0 < i < |p| ensures Edge(s.graph.nodes, p[i - 1], p[i]) {
      assert (p[i], p[i - 1]) in s.db.refs;
      EdgeIsRow(s, p[i - 1], p[i]);
    }
  }

  /** A cached drv is reached from a failure exactly if it depends on it by way of cached drvs only. */
  lemma ReachedIff(s: Service, f: DrvId, n: DrvId)
    requires Invariant(s) && n in s.graph.nodes
    ensures n in TransitiveDependents(s.graph.nodes, f) <==> n != f && DependsThroughCache(s, n, f)
  {
    if Reaches(s.graph.nodes, f, n) {
      var p :| IsPath(s.graph.nodes, p) && p[0] == f && p[|p| - 1] == n;
      PathIsCached(s, p);
    }
    if DependsThroughCache(s, n, f) {
      var p :| IsRefPath(s.db.refs, p) && AllIn(p, s.graph.nodes) && p[0] == f && p[|p| - 1] == n;
      CachedPathIsPath(s, p);
    }
  }

  /** With everything cached a path of stored references is a path through the cache. */
  lemma AllCachedPath(s: Service, p: seq<DrvId>)
    requires Mirror.Stored(s) && AllCached(s) && IsRefPath(s.db.refs, p) && p[|p| - 1] in s.graph.nodes
    ensures AllIn(p, s.graph.nodes)
  {
    forall i | 0 <= i < |p| ensures p[i] in s.graph.nodes {
      if i < |p| - 1 { assert (p[i + 1], p[i]) in s.db.refs; }
    }
  }

  lemma AllReachedIff(s: Service, f: DrvId, n: DrvId)
    requires Invariant(s) && AllCached(s) && n in s.graph.nodes
    ensures n in TransitiveDependents(s.graph.nodes, f) <==> n != f && DependsOn(s.db.refs, n, f)
  {
    ReachedIff(s, f, n);
    if DependsOn(s.db.refs, n, f) {
      var p :| IsRefPath(s.db.refs, p) && p[0] == f && p[|p| - 1] == n;
      AllCachedPath(s, p);
    }
  }

  // ---------------------------------------------------------------- runs from startup

  /** After every run of new drvs, with evictions and reloads, a propagation marks exactly the cached drvs it reaches so. */
  lemma EveryRunPropagatesIff(db: Database, capacity: nat, rows: seq<Drv>, failures: seq<DrvId>, now: nat,
                              cmds: seq<(Command, nat)>, f: DrvId, n: DrvId)
    requires 0 < capacity && Startup.WellFormed(db, rows) && FreshRun(Start(db, capacity, rows, failures, now), cmds)
    requires n in Run(Start(db, capacity, rows, failures, now), cmds).graph.nodes
    ensures var s := Run(Start(db, capacity, rows, failures, now), cmds);
            n in TransitiveDependents(s.graph.nodes, f) <==> n != f && DependsThroughCache(s, n, f)
  {
    EveryRunKeepsTheInvariant(db, capacity, rows, failures, now, cmds);
    ReachedIff(Run(Start(db, capacity, rows, failures, now), cmds), f, n);
  }

  lemma {:induction false} RoomyRunCaches(s: Service, cmds: seq<(Command, nat)>)
    requires AllCached(s) && RoomyRun(s, cmds)
    ensures AllCached(Run(s, cmds)) && FreshRun(s, cmds)
    decreases |cmds|
  {
    if cmds != [] {
      StepIsAllowed(s, cmds[0].0, cmds[0].1);
      RoomyRunCaches(Step(s, cmds[0].0, cmds[0].1), cmds[1..]);
    }
  }

  lemma EnumeratedIsWellFormed(db: Database, rows: seq<Drv>, capacity: nat)
    requires Enumerated(db, rows, capacity)
    ensures Startup.WellFormed(db, rows)
  {
    forall i | 0 <= i < |rows| ensures rows[i].id in db.drvs { assert Recovery.Stored(rows, rows[i].id); }
  }

  /** After every run below capacity, a propagation marks exactly the drvs that depend on the failure. */
  lemma EveryRoomyRunPropagatesIff(db: Database, capacity: nat, rows: seq<Drv>, failures: seq<DrvId>, now: nat,
                                   cmds: seq<(Command, nat)>, f: DrvId, n: DrvId)
    requires Enumerated(db, rows, capacity) && RoomyRun(Start(db, capacity, rows, failures, now), cmds)
    requires n in Run(Start(db, capacity, rows, failures, now), cmds).db.drvs
    ensures var s := Run(Start(db, capacity, rows, failures, now), cmds);
            n in TransitiveDependents(s.graph.nodes, f) <==> n != f && DependsOn(s.db.refs, n, f)
  {
    var s := Start(db, capacity, rows, failures, now);
    StartCachesAll(db, capacity, rows, failures, now);
    RoomyRunCaches(s, cmds);
    EnumeratedIsWellFormed(db, rows, capacity);
    EveryRunKeepsTheInvariant(db, capacity, rows, failures, now, cmds);
    AllReachedIff(Run(s, cmds), f, n);
  }

  /** After every run below capacity, every recorded blocker is a drv that the blocked one depends on through the stored references. */
  lemma EveryRoomyRunJustifies(db: Database, capacity: nat, rows: seq<Drv>, failures: seq<DrvId>, now: nat,
                               cmds: seq<(Command, nat)>, f: DrvId, n: DrvId)
    requires Enumerated(db, rows, capacity) && RoomyRun(Start(db, capacity, rows, failures, now), cmds)
    requires BlockedBy(Run(Start(db, capacity, rows, failures, now), cmds).graph, n, f)
    ensures n != f && DependsOn(Run(Start(db, capacity, rows, failures, now), cmds).db.refs, n, f)
  {
    var s := Start(db, capacity, rows, failures, now);
    EveryRoomyRunTracks(db, capacity, rows, failures, now, cmds);
    StartCachesAll(db, capacity, rows, failures, now);
    RoomyRunCaches(s, cmds);
    EveryRoomyRunPropagatesIff(db, capacity, rows, failures, now, cmds, f, n);
  }
}
