/**
 Inserting a drv that is known already, cached or evicted: it loses its count and its edges
 unless the command brings them again, and a later reload of one of its dependencies can
 spoil the mirror.
 */
module Reinsertions {
  import opened Sequences
  import opened Drvs
  import opened Reachability
  import opened Graphs
  import opened Services
  import opened Mirror
  import Startup
  import opened InsertWindows
  import opened Traces

  /**
   Inserting a drv that is cached already forgets its count. The count then covers the cached
   referrers exactly if no other cached drv depends on it.
   */
  lemma ReinsertCoversIff(s: Service, drv: Drv, now: nat)
    requires drv.id in s.graph.nodes
    ensures CoveredAt(InsertDrv(s, drv, now), drv.id) <==>
            forall n :: n in s.graph.nodes && n != drv.id ==> drv.id !in s.graph.nodes[n].dependencies
  {
    var t := InsertDrv(s, drv, now);
    var referrers := Referrers(t.graph.nodes, drv.id);
    assert Count(t.refCounts, drv.id) == 0;
    assert forall n :: n in t.graph.nodes && n != drv.id ==> n in s.graph.nodes && t.graph.nodes[n] == s.graph.nodes[n];
    assert t.graph.nodes[drv.id].dependencies == [];
    if CoveredAt(t, drv.id) {
      assert referrers == {};
      forall n | n in s.graph.nodes && n != drv.id ensures drv.id !in s.graph.nodes[n].dependencies {
        assert n !in referrers;
      }
    } else {
      var n :| n in referrers;
    }
  }

  lemma ListedIsStored(s: Service, n: DrvId, b: DrvId)
    requires Adjacent(s) && n in s.graph.nodes && b in s.graph.nodes[n].dependencies
    ensures (n, b) in s.db.refs
  {
    assert AdjacentAt(s.graph.nodes, s.db.refs, n);
  }

  // ---------------------------------------------------------------- the cache after a command

  /** The cached ids after one more insertion: a cached one moves to the end, a full cache drops its oldest. */
  function Pushed(order: seq<DrvId>, capacity: nat, id: DrvId): (r: seq<DrvId>)
    requires 0 < capacity && |order| <= capacity && NoDuplicates(order)
    ensures |r| <= capacity && NoDuplicates(r)
  {
    if id in order then Without(order, id) + [id]
    else if |order| < capacity then order + [id]
    else order[1..] + [id]
  }

  function PushedAll(order: seq<DrvId>, capacity: nat, drvs: seq<Drv>): seq<DrvId>
    requires 0 < capacity && |order| <= capacity && NoDuplicates(order)
    decreases |drvs|
  {
    if drvs == [] then order else PushedAll(Pushed(order, capacity, drvs[0].id), capacity, drvs[1..])
  }

  lemma InsertPushes(s: Service, drv: Drv, now: nat)
    ensures var g := InsertDrv(s, drv, now).graph;
            g.order == Pushed(s.graph.order, s.graph.capacity, drv.id) && g.capacity == s.graph.capacity
  {
  }

  /** `n` is cached after the insertions, told from the cache before. */
  predicate CachedAfter(g: Graph, drvs: seq<Drv>, n: DrvId) {
    n in PushedAll(g.order, g.capacity, drvs)
  }

  lemma {:induction false} InsertEachPushes(s: Service, drvs: seq<Drv>, now: nat)
    ensures InsertEach(s, drvs, now).graph.order == PushedAll(s.graph.order, s.graph.capacity, drvs)
    decreases |drvs|
  {
    if drvs != [] {
      InsertPushes(s, drvs[0], now);
      InsertEachPushes(InsertDrv(s, drvs[0], now), drvs[1..], now);
    }
  }

  predicate InBatch(drvs: seq<Drv>, n: DrvId) {
    exists i :: 0 <= i < |drvs| && drvs[i].id == n
  }

  lemma InBatchCons(drvs: seq<Drv>, n: DrvId)
    requires drvs != []
    ensures InBatch(drvs, n) <==> n == drvs[0].id || InBatch(drvs[1..], n)
  {
    if i :| 0 < i < |drvs| && drvs[i].id == n { assert drvs[1..][i - 1].id == n; }
    if i :| 0 <= i < |drvs[1..]| && drvs[1..][i].id == n { assert drvs[i + 1].id == n; }
  }

  predicate Bare(node: Node) {
    node.dependencies == [] && node.dependents == []
  }

  lemma InsertDrvNodes(s: Service, drv: Drv, now: nat, n: DrvId)
    requires n in InsertDrv(s, drv, now).graph.nodes
    ensures var node := InsertDrv(s, drv, now).graph.nodes[n];
            if n == drv.id then Bare(node) else n in s.graph.nodes && node == s.graph.nodes[n]
  {
  }

  /** Between the drvs and the references of the command: what was inserted has no edges, the rest is as before. */
  lemma {:induction false} InsertEachNodes(s: Service, drvs: seq<Drv>, now: nat, n: DrvId)
    requires n in InsertEach(s, drvs, now).graph.nodes
    ensures var node := InsertEach(s, drvs, now).graph.nodes[n];
            if InBatch(drvs, n) then Bare(node) else n in s.graph.nodes && node == s.graph.nodes[n]
    decreases |drvs|
  {
    if drvs != [] {
      InBatchCons(drvs, n);
      InsertEachNodes(InsertDrv(s, drvs[0], now), drvs[1..], now, n);
      if !InBatch(drvs[1..], n) { InsertDrvNodes(s, drvs[0], now, n); }
    }
  }

  // ---------------------------------------------------------------- counts between drvs and references

  ghost predicate DistinctLists(nodes: Nodes) {
    forall n :: n in nodes ==> NoDuplicates(nodes[n].dependencies)
  }

  lemma InsertDrvDistinct(s: Service, drv: Drv, now: nat)
    requires DistinctLists(s.graph.nodes)
    ensures DistinctLists(InsertDrv(s, drv, now).graph.nodes)
  {
    forall n | n in InsertDrv(s, drv, now).graph.nodes
      ensures NoDuplicates(InsertDrv(s, drv, now).graph.nodes[n].dependencies)
    {
      InsertDrvNodes(s, drv, now, n);
    }
  }

  lemma CachedInsertCount(s: Service, drv: Drv, now: nat, y: DrvId)
    requires drv.id in s.graph.nodes && y != drv.id && NoDuplicates(s.graph.nodes[drv.id].dependencies)
    ensures Count(InsertDrv(s, drv, now).refCounts, y)
         >= Count(s.refCounts, y) - (if y in s.graph.nodes[drv.id].dependencies then 1 else 0)
  {
    var deps, nodes := s.graph.nodes[drv.id].dependencies, InsertNode(s.graph, drv, now).graph.nodes;
    DropAllCounts(s.refCounts, nodes, deps, y);
  }

  lemma CachedInsertReferrers(s: Service, drv: Drv, now: nat, y: DrvId)
    requires drv.id in s.graph.nodes
    ensures Referrers(InsertDrv(s, drv, now).graph.nodes, y) == Referrers(s.graph.nodes, y) - {drv.id}
    ensures drv.id in Referrers(s.graph.nodes, y) <==> y in s.graph.nodes[drv.id].dependencies
  {
    assert InsertDrv(s, drv, now).graph.nodes == s.graph.nodes[drv.id := FromDrv(drv)];
  }

  /** An insertion, of a cached drv or not, keeps every other drv covered. */
  lemma InsertCoversOthers(s: Service, drv: Drv, now: nat, y: DrvId)
    requires DistinctLists(s.graph.nodes) && CoveredAt(s, y) && y != drv.id && y in InsertDrv(s, drv, now).graph.nodes
    ensures CoveredAt(InsertDrv(s, drv, now), y)
  {
    InsertDrvNodes(s, drv, now, y);
    if drv.id in s.graph.nodes {
      CachedInsertCount(s, drv, now, y);
      CachedInsertReferrers(s, drv, now, y);
    } else {
      var s0 := s.(db := Store(s.db, drv));
      assert CoveredAt(s0, y);
      AdmitFreshCovered(s0, drv, now, y);
    }
  }

  lemma {:induction false} InsertEachCovers(s: Service, drvs: seq<Drv>, now: nat, y: DrvId)
    requires DistinctLists(s.graph.nodes) && CoveredAt(s, y) && !InBatch(drvs, y)
    requires y in InsertEach(s, drvs, now).graph.nodes
    ensures CoveredAt(InsertEach(s, drvs, now), y)
    decreases |drvs|
  {
    if drvs != [] {
      var t := InsertDrv(s, drvs[0], now);
      InBatchCons(drvs, y);
      InsertEachNodes(t, drvs[1..], now, y);
      InsertDrvDistinct(s, drvs[0], now);
      InsertCoversOthers(s, drvs[0], now, y);
      InsertEachCovers(t, drvs[1..], now, y);
    }
  }

  lemma {:induction false} LinkEachCounts(s: Service, refs: Refs, x: DrvId)
    ensures Count(LinkEach(s, refs).refCounts, x) == Count(s.refCounts, x) + |RefsTo(refs, x)|
    decreases |refs|
  {
    if refs != [] { LinkEachCounts(InsertRef(s, refs[0].0, refs[0].1), refs[1..], x); }
  }

  lemma {:induction false} LinkEachCovered(s: Service, refs: Refs, x: DrvId)
    requires CoveredAt(s, x)
    ensures CoveredAt(LinkEach(s, refs), x)
    decreases |refs|
  {
    if refs != [] {
      InsertRefCovered(s, refs[0].0, refs[0].1, x);
      LinkEachCovered(InsertRef(s, refs[0].0, refs[0].1), refs[1..], x);
    }
  }

  // ---------------------------------------------------------------- the whole command

  /** The adjacency of one drv after the references are linked, in terms of its node before. */
  ghost predicate LinkedAs(before: Node, after: Node, refs: Refs, n: DrvId) {
    && (forall b :: b in after.dependencies <==> b in before.dependencies || (n, b) in refs)
    && (forall b :: b in after.dependents <==> b in before.dependents || (b, n) in refs)
    && (NoDuplicates(before.dependencies) ==> NoDuplicates(after.dependencies))
  }

  ghost predicate LinkedBare(after: Node, refs: Refs, n: DrvId) {
    && (forall b :: b in after.dependencies <==> (n, b) in refs)
    && (forall b :: b in after.dependents <==> (b, n) in refs)
    && NoDuplicates(after.dependencies)
  }

  lemma LinkedNode(s: Service, refs: Refs, n: DrvId)
    requires n in s.graph.nodes
    ensures n in LinkEach(s, refs).graph.nodes && LinkedAs(s.graph.nodes[n], LinkEach(s, refs).graph.nodes[n], refs, n)
  {
    LinkingFrame(s, refs);
    AddEdgesExtends(s.graph, refs, n);
  }

  ghost function Batch(s: Service, drvs: seq<Drv>, refs: Refs, now: nat): Service {
    LinkEach(InsertEach(s, drvs, now), refs)
  }

  lemma BatchCaches(s: Service, drvs: seq<Drv>, refs: Refs, now: nat, n: DrvId)
    ensures n in Batch(s, drvs, refs, now).graph.nodes <==> CachedAfter(s.graph, drvs, n)
  {
    var mid := InsertEach(s, drvs, now);
    InsertEachPushes(s, drvs, now);
    LinkingFrame(mid, refs);
    assert n in mid.graph.order <==> n in mid.graph.nodes;
  }

  /** The node of a drv after the command: a bare one or the one before, with the references linked. */
  lemma BatchNode(s: Service, drvs: seq<Drv>, refs: Refs, now: nat, n: DrvId)
    requires n in Batch(s, drvs, refs, now).graph.nodes
    ensures var node := Batch(s, drvs, refs, now).graph.nodes[n];
            if InBatch(drvs, n) then LinkedBare(node, refs, n)
            else n in s.graph.nodes && LinkedAs(s.graph.nodes[n], node, refs, n)
  {
    var mid := InsertEach(s, drvs, now);
    LinkingFrame(mid, refs);
    InsertEachNodes(s, drvs, now, n);
    LinkedNode(mid, refs, n);
  }

  lemma BatchRefs(s: Service, drvs: seq<Drv>, refs: Refs, now: nat)
    ensures forall e :: e in Batch(s, drvs, refs, now).db.refs <==> e in s.db.refs || e in refs
  {
    InsertEachRefs(s, drvs, now);
    LinkEachRefs(InsertEach(s, drvs, now), refs);
  }

  /** The command brings every stored reference of `x`, and every stored row to it from a drv that is cached afterwards. */
  ghost predicate ResentFor(s: Service, drvs: seq<Drv>, refs: Refs, x: DrvId) {
    && (forall y :: (x, y) in s.db.refs ==> (x, y) in refs)
    && (forall a :: CachedAfter(s.graph, drvs, a) && (a, x) in s.db.refs ==> (a, x) in refs)
  }

  /** It does so for every drv that it inserts and that is cached afterwards. */
  ghost predicate Resent(s: Service, drvs: seq<Drv>, refs: Refs) {
    forall x :: InBatch(drvs, x) && CachedAfter(s.graph, drvs, x) ==> ResentFor(s, drvs, refs, x)
  }

  lemma BatchDependent(s: Service, drvs: seq<Drv>, refs: Refs, now: nat, n: DrvId, b: DrvId)
    requires Adjacent(s) && Resent(s, drvs, refs) && ((b, n) in s.db.refs || (b, n) in refs)
    requires var nodes := Batch(s, drvs, refs, now).graph.nodes; n in nodes && b in nodes
    ensures b in Batch(s, drvs, refs, now).graph.nodes[n].dependents
  {
    BatchCaches(s, drvs, refs, now, n);
    BatchCaches(s, drvs, refs, now, b);
    BatchNode(s, drvs, refs, now, n);
    BatchNode(s, drvs, refs, now, b);
    if (b, n) !in refs {
      assert InBatch(drvs, n) ==> ResentFor(s, drvs, refs, n);
      assert InBatch(drvs, b) ==> ResentFor(s, drvs, refs, b);
      assert AdjacentAt(s.graph.nodes, s.db.refs, n);
    }
  }

  lemma BatchLists(s: Service, drvs: seq<Drv>, refs: Refs, now: nat, n: DrvId, b: DrvId)
    requires Adjacent(s) && Resent(s, drvs, refs) && n in Batch(s, drvs, refs, now).graph.nodes
    ensures var node := Batch(s, drvs, refs, now).graph.nodes[n];
            && (b in node.dependencies <==> (n, b) in s.db.refs || (n, b) in refs)
            && (b in node.dependents ==> (b, n) in s.db.refs || (b, n) in refs)
            && NoDuplicates(node.dependencies)
  {
    BatchCaches(s, drvs, refs, now, n);
    BatchNode(s, drvs, refs, now, n);
    if InBatch(drvs, n) {
      assert ResentFor(s, drvs, refs, n);
    } else {
      assert AdjacentAt(s.graph.nodes, s.db.refs, n);
    }
  }

  lemma BatchAdjacentAt(s: Service, drvs: seq<Drv>, refs: Refs, now: nat, n: DrvId)
    requires Adjacent(s) && Resent(s, drvs, refs) && n in Batch(s, drvs, refs, now).graph.nodes
    ensures var t := Batch(s, drvs, refs, now); AdjacentAt(t.graph.nodes, t.db.refs, n)
  {
    var t := Batch(s, drvs, refs, now);
    var nodes, rows := t.graph.nodes, t.db.refs;
    BatchRefs(s, drvs, refs, now);
    BatchLists(s, drvs, refs, now, n, n);
    forall b ensures b in nodes[n].dependencies <==> (n, b) in rows { BatchLists(s, drvs, refs, now, n, b); }
    forall b | b in nodes[n].dependents ensures (b, n) in rows { BatchLists(s, drvs, refs, now, n, b); }
    forall b | b in nodes && (b, n) in rows ensures b in nodes[n].dependents { BatchDependent(s, drvs, refs, now, n, b); }
  }

  lemma AdjacentIsResentFor(s: Service, drvs: seq<Drv>, refs: Refs, now: nat, x: DrvId)
    requires Adjacent(Batch(s, drvs, refs, now)) && InBatch(drvs, x) && CachedAfter(s.graph, drvs, x)
    ensures ResentFor(s, drvs, refs, x)
  {
    var t := Batch(s, drvs, refs, now);
    BatchRefs(s, drvs, refs, now);
    BatchCaches(s, drvs, refs, now, x);
    BatchNode(s, drvs, refs, now, x);
    assert AdjacentAt(t.graph.nodes, t.db.refs, x);
    forall a | CachedAfter(s.graph, drvs, a) && (a, x) in s.db.refs ensures (a, x) in refs { BatchCaches(s, drvs, refs, now, a); }
  }

  /** A re-inserted drv is counted once for every row that the command brings. */
  lemma BatchCoversInserted(s: Service, drvs: seq<Drv>, refs: Refs, now: nat, x: DrvId)
    requires Adjacent(s) && Resent(s, drvs, refs) && InBatch(drvs, x) && CachedAfter(s.graph, drvs, x)
    ensures CoveredAt(Batch(s, drvs, refs, now), x)
  {
    var t := Batch(s, drvs, refs, now);
    LinkEachCounts(InsertEach(s, drvs, now), refs, x);
    assert ResentFor(s, drvs, refs, x);
    forall n | n in Referrers(t.graph.nodes, x) ensures (n, x) in refs {
      BatchCaches(s, drvs, refs, now, n);
      BatchNode(s, drvs, refs, now, n);
      if !InBatch(drvs, n) && x in s.graph.nodes[n].dependencies { ListedIsStored(s, n, x); }
    }
    ReferrersBoundRows(refs, x, Referrers(t.graph.nodes, x));
  }

  lemma BatchCoversOthers(s: Service, drvs: seq<Drv>, refs: Refs, now: nat, y: DrvId)
    requires Invariant(s) && !InBatch(drvs, y) && y in Batch(s, drvs, refs, now).graph.nodes
    ensures CoveredAt(Batch(s, drvs, refs, now), y)
  {
    var mid := InsertEach(s, drvs, now);
    LinkingFrame(mid, refs);
    InsertEachNodes(s, drvs, now, y);
    AdjacentIsDistinct(s);
    assert CoveredAt(s, y);
    InsertEachCovers(s, drvs, now, y);
    LinkEachCovered(mid, refs, y);
  }

  lemma BatchStored(s: Service, drvs: seq<Drv>, refs: Refs, now: nat)
    requires Mirror.Stored(s) && forall e :: e in refs ==> Known(s, drvs, e.0) && Known(s, drvs, e.1)
    ensures Mirror.Stored(Batch(s, drvs, refs, now))
  {
    var mid, t := InsertEach(s, drvs, now), Batch(s, drvs, refs, now);
    BatchRefs(s, drvs, refs, now);
    InsertEachStored(s, drvs, now);
    LinkEachStored(mid, refs);
    LinkingFrame(mid, refs);
    forall n | n in t.graph.nodes ensures n in t.db.drvs {
      InsertEachNodes(s, drvs, now, n);
      assert Known(s, drvs, n);
    }
    forall e | e in t.db.refs ensures e.0 in t.db.drvs && e.1 in t.db.drvs { assert Known(s, drvs, e.0) && Known(s, drvs, e.1); }
  }

  lemma ResentKeeps(s: Service, drvs: seq<Drv>, refs: Refs, now: nat)
    requires Invariant(s) && Resent(s, drvs, refs)
    requires forall e :: e in refs ==> Known(s, drvs, e.0) && Known(s, drvs, e.1)
    ensures Invariant(Batch(s, drvs, refs, now))
  {
    var t := Batch(s, drvs, refs, now);
    InsertEachMirrored(s, drvs, now);
    LinkEachMirrored(InsertEach(s, drvs, now), refs);
    BatchStored(s, drvs, refs, now);
    forall a | a in t.graph.nodes ensures AdjacentAt(t.graph.nodes, t.db.refs, a) { BatchAdjacentAt(s, drvs, refs, now, a); }
    forall y | y in t.graph.nodes ensures CoveredAt(t, y) {
      BatchCaches(s, drvs, refs, now, y);
      if InBatch(drvs, y) { BatchCoversInserted(s, drvs, refs, now, y); } else { BatchCoversOthers(s, drvs, refs, now, y); }
    }
    CoveredIsEverywhere(t);
  }

  /**
   An insert command for any drvs, new, cached, evicted or listed twice, keeps the invariant if
   and only if, for every drv that it inserts and that is cached afterwards, it brings every
   stored reference of the drv and every stored row to it from a drv that is cached afterwards.
   */
  lemma InsertKeepsIff(s: Service, drvs: seq<Drv>, refs: Refs, now: nat)
    requires Invariant(s) && forall e :: e in refs ==> Known(s, drvs, e.0) && Known(s, drvs, e.1)
    ensures Invariant(Step(s, InsertDrvsCmd(drvs, refs), now)) <==> Resent(s, drvs, refs)
  {
    if Invariant(Batch(s, drvs, refs, now)) {
      forall x | InBatch(drvs, x) && CachedAfter(s.graph, drvs, x) ensures ResentFor(s, drvs, refs, x) {
        AdjacentIsResentFor(s, drvs, refs, now, x);
      }
    }
    if Resent(s, drvs, refs) { ResentKeeps(s, drvs, refs, now); }
  }

  // ---------------------------------------------------------------- runs

  /** Every insert command of the run brings the references that it would cut. */
  ghost predicate ResendingRun(s: Service, cmds: seq<(Command, nat)>)
    decreases |cmds|
  {
    cmds != [] ==>
      && (var cmd := cmds[0].0;
          cmd.InsertDrvsCmd? ==>
            && (forall e :: e in cmd.refs ==> Known(s, cmd.drvs, e.0) && Known(s, cmd.drvs, e.1))
            && Resent(s, cmd.drvs, cmd.refs))
      && ResendingRun(Step(s, cmds[0].0, cmds[0].1), cmds[1..])
  }

  /** Over every run with re-insertions, evictions and reloads whose inserts bring what they cut, the invariant holds. */
  lemma {:induction false} ResendingRunKeeps(s: Service, cmds: seq<(Command, nat)>)
    requires Invariant(s) && ResendingRun(s, cmds)
    ensures Invariant(Run(s, cmds))
    decreases |cmds|
  {
    if cmds != [] {
      var (cmd, now) := cmds[0];
      if cmd.InsertDrvsCmd? {
        InsertKeepsIff(s, cmd.drvs, cmd.refs, now);
      } else {
        StepKeeps(s, cmd, now);
      }
      ResendingRunKeeps(Step(s, cmd, now), cmds[1..]);
    }
  }

  /** New drvs have nothing to bring. */
  lemma NewIsResent(s: Service, drvs: seq<Drv>, refs: Refs)
    requires Mirror.Stored(s) && NewDrvs(s, drvs, refs)
    ensures Resent(s, drvs, refs)
  {
    forall x | InBatch(drvs, x) && CachedAfter(s.graph, drvs, x) ensures ResentFor(s, drvs, refs, x) {
      assert x !in s.db.drvs;
    }
  }

  /** From startup on, the invariant holds over every such run; runs of new drvs are among them. */
  lemma EveryResendingRunKeeps(db: Database, capacity: nat, rows: seq<Drv>, failures: seq<DrvId>, now: nat, cmds: seq<(Command, nat)>)
    requires 0 < capacity && Startup.WellFormed(db, rows)
    requires ResendingRun(Startup.Start(db, capacity, rows, failures, now), cmds)
    ensures Invariant(Run(Startup.Start(db, capacity, rows, failures, now), cmds))
  {
    Startup.StartEstablishes(db, capacity, rows, failures, now);
    ResendingRunKeeps(Startup.Start(db, capacity, rows, failures, now), cmds);
  }

  lemma {:induction false} FreshRunIsResending(s: Service, cmds: seq<(Command, nat)>)
    requires Invariant(s) && FreshRun(s, cmds)
    ensures ResendingRun(s, cmds)
    decreases |cmds|
  {
    if cmds != [] {
      var (cmd, now) := cmds[0];
      if cmd.InsertDrvsCmd? { NewIsResent(s, cmd.drvs, cmd.refs); }
      StepKeeps(s, cmd, now);
      FreshRunIsResending(Step(s, cmd, now), cmds[1..]);
    }
  }

  // ---------------------------------------------------------------- one known drv

  /** A cached drv that the insertion of `x` does not displace. */
  predicate Remains(g: Graph, x: DrvId, a: DrvId) {
    a in g.nodes && (x in g.nodes || !Displaced(g, a))
  }

  lemma PushedOne(g: Graph, drv: Drv, n: DrvId)
    ensures CachedAfter(g, [drv], n) <==> n == drv.id || Remains(g, drv.id, n)
  {
    var drvs := [drv];
    assert drvs[1..] == [];
    assert PushedAll(g.order, g.capacity, drvs) == PushedAll(Pushed(g.order, g.capacity, drvs[0].id), g.capacity, []);
    assert n in g.order <==> n in g.nodes;
    assert drv.id in g.order <==> drv.id in g.nodes;
    if drv.id !in g.order && |g.order| == g.capacity { TailWithoutHead(g.order, n); }
  }

  lemma TailWithoutHead(order: seq<DrvId>, n: DrvId)
    requires order != [] && NoDuplicates(order)
    ensures n in order[1..] <==> n in order && n != order[0]
  {
    if n in order && n != order[0] {
      var i :| 0 <= i < |order| && order[i] == n;
      assert order[1..][i - 1] == n;
    }
  }

  lemma InsertJust(s: Service, drv: Drv, now: nat)
    ensures InsertEach(s, [drv], now) == InsertDrv(s, drv, now)
  {
    var drvs := [drv];
    assert drvs[1..] == [];
    assert InsertEach(s, drvs, now) == InsertEach(InsertDrv(s, drvs[0], now), [], now);
  }

  lemma BatchOfOne(drv: Drv, n: DrvId)
    ensures InBatch([drv], n) <==> n == drv.id
  {
    var drvs := [drv];
    assert drvs[0].id == drv.id;
  }

  /** Without any references: exactly if the drv has no stored reference and no referrer that remains cached. */
  lemma ReinsertKeepsIff(s: Service, drv: Drv, now: nat)
    requires Invariant(s) && drv.id in s.db.drvs
    ensures Invariant(InsertDrv(s, drv, now)) <==>
            && (forall b :: (drv.id, b) !in s.db.refs)
            && (forall b :: Remains(s.graph, drv.id, b) ==> (b, drv.id) !in s.db.refs)
  {
    InsertJust(s, drv, now);
    InsertKeepsIff(s, [drv], [], now);
    forall n ensures CachedAfter(s.graph, [drv], n) <==> n == drv.id || Remains(s.graph, drv.id, n) { PushedOne(s.graph, drv, n); }
    forall n ensures InBatch([drv], n) <==> n == drv.id { BatchOfOne(drv, n); }
    assert Resent(s, [drv], []) <==> ResentFor(s, [drv], [], drv.id);
  }

  // ---------------------------------------------------------------- what breaks the mirror

  lemma {:induction false} InsertEachMirrored(s: Service, drvs: seq<Drv>, now: nat)
    requires Mirrored(s)
    ensures Mirrored(InsertEach(s, drvs, now))
    decreases |drvs|
  {
    if drvs != [] {
      InsertDrvMirrored(s, drvs[0], now);
      InsertEachMirrored(InsertDrv(s, drvs[0], now), drvs[1..], now);
    }
  }

  lemma {:induction false} LinkEachMirrored(s: Service, refs: Refs)
    requires Mirrored(s)
    ensures Mirrored(LinkEach(s, refs))
    decreases |refs|
  {
    if refs != [] {
      InsertRefMirrored(s, refs[0].0, refs[0].1);
      LinkEachMirrored(InsertRef(s, refs[0].0, refs[0].1), refs[1..]);
    }
  }

  /** Whatever a command inserts, only a query, through a reload, can spoil the mirror. */
  lemma OnlyQueriesSpoilMirror(s: Service, cmd: Command, now: nat)
    requires Mirrored(s) && !cmd.QueryCmd?
    ensures Mirrored(Step(s, cmd, now))
  {
    match cmd
    case UpdateStateCmd(id, state) => UpdateStateMirrored(s, id, state, now);
    case InsertDrvsCmd(drvs, refs) =>
      InsertEachMirrored(s, drvs, now);
      LinkEachMirrored(InsertEach(s, drvs, now), refs);
    case PropagateFailureCmd(failed) => PropagateFailureMirrored(s, failed);
    case ClearFailureCmd(failed) => ClearFailureMirrored(s, failed);
    case PruneCmd(cutoff) => PruneMirrored(s, cutoff);
  }
}
