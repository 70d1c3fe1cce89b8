/**
 Access times under every command, re-insertions included: exactly the cached drvs have
 one, and with a clock that does not go back the cache's order is the order of the times.
 */
module AccessTimes {
  import opened Wrappers
  import opened Sequences
  import opened Drvs
  import opened Reachability
  import opened Graphs
  import opened Services
  import opened Recovery
  import opened Startup

  type Times = map<DrvId, nat>

  function Time(times: Times, id: DrvId): nat {
    if id in times then times[id] else 0
  }

  /** The list goes from the earliest time to the latest. */
  ghost predicate Ascending(order: seq<DrvId>, times: Times) {
    forall i, j :: 0 <= i < j < |order| ==> Time(times, order[i]) <= Time(times, order[j])
  }

  ghost predicate Stamped(s: Service) {
    forall n :: n in s.lastAccessed <==> n in s.graph.nodes
  }

  /** What holds at time `now`: the cached drvs are stamped, in cache order, none in the future. */
  ghost predicate Recency(s: Service, now: nat) {
    && Stamped(s)
    && Ascending(s.graph.order, s.lastAccessed)
    && forall n :: n in s.lastAccessed ==> s.lastAccessed[n] <= now
  }

  // ---------------------------------------------------------------- inserting

  lemma {:induction false} WithoutAscends(order: seq<DrvId>, x: DrvId, times: Times)
    requires NoDuplicates(order) && Ascending(order, times)
    ensures Ascending(Without(order, x), times)
    decreases |order|
  {
    if order != [] && order[0] != x {
      var rest := Without(order[1..], x);
      WithoutAscends(order[1..], x, times);
      forall i | 0 <= i < |rest| ensures Time(times, order[0]) <= Time(times, rest[i]) {
        assert rest[i] in rest;
        var j :| 0 <= j < |order[1..]| && order[1..][j] == rest[i];
        assert order[j + 1] == rest[i];
      }
    }
  }

  /** A drv that is stamped now may go to the end of the list. */
  lemma AppendAscends(order: seq<DrvId>, x: DrvId, times: Times, times': Times, now: nat)
    requires Ascending(order, times) && x !in order && Time(times', x) == now
    requires forall n :: n in order ==> Time(times', n) == Time(times, n) <= now
    ensures Ascending(order + [x], times')
  {
    assert forall i :: 0 <= i < |order| ==> order[i] in order;
  }

  /** The list that an insertion leaves in front of the inserted drv. */
  function Kept(g: Graph, id: DrvId): seq<DrvId> {
    if id in g.nodes then Without(g.order, id)
    else if |g.order| < g.capacity then g.order
    else g.order[1..]
  }

  lemma AdmitOrder(s: Service, drv: Drv, now: nat)
    ensures Admit(s, drv, now).graph.order == Kept(s.graph, drv.id) + [drv.id]
    ensures forall n :: n in Kept(s.graph, drv.id) ==> n in s.graph.order && n != drv.id
    ensures Ascending(s.graph.order, s.lastAccessed) ==> Ascending(Kept(s.graph, drv.id), s.lastAccessed)
  {
    if Ascending(s.graph.order, s.lastAccessed) { WithoutAscends(s.graph.order, drv.id, s.lastAccessed); }
  }

  lemma AdmitStamps(s: Service, drv: Drv, now: nat)
    requires Stamped(s)
    ensures var t := Admit(s, drv, now);
            && Stamped(t) && Time(t.lastAccessed, drv.id) == now
            && forall n :: n in t.lastAccessed && n != drv.id ==> n in s.lastAccessed && t.lastAccessed[n] == s.lastAccessed[n]
  {
  }

  lemma AdmitRecency(s: Service, drv: Drv, before: nat, now: nat)
    requires Recency(s, before) && before <= now
    ensures Recency(Admit(s, drv, now), now)
  {
    var t := Admit(s, drv, now);
    AdmitStamps(s, drv, now);
    AdmitOrder(s, drv, now);
    forall n | n in Kept(s.graph, drv.id) ensures Time(t.lastAccessed, n) == Time(s.lastAccessed, n) <= now {
      assert n in t.graph.order;
    }
    AppendAscends(Kept(s.graph, drv.id), drv.id, s.lastAccessed, t.lastAccessed, now);
  }

  /** Whoever keeps the cached ids, their order and the times keeps the rest. */
  lemma SameRecency(s: Service, t: Service, now: nat)
    requires Recency(s, now)
    requires t.graph.order == s.graph.order && t.graph.nodes.Keys == s.graph.nodes.Keys && t.lastAccessed == s.lastAccessed
    ensures Recency(t, now)
  {
  }

  lemma EnsureLoadedRecency(s: Service, id: DrvId, before: nat, now: nat)
    requires Recency(s, before) && before <= now
    ensures Recency(EnsureLoaded(s, id, now), now)
  {
    if id !in s.graph.nodes && id in s.db.drvs {
      var m := Admit(s, StoredDrv(s.db, id), now);
      AdmitRecency(s, StoredDrv(s.db, id), before, now);
      AddEdgesFrame(m.graph, RefsFrom(s.db.refs, id));
      AddEdgesFrame(AddEdges(m.graph, RefsFrom(s.db.refs, id)), RefsTo(s.db.refs, id));
      SameRecency(m, EnsureLoaded(s, id, now), now);
    }
  }

  lemma {:induction false} EnsureAllLoadedRecency(s: Service, ids: seq<DrvId>, before: nat, now: nat)
    requires Recency(s, before) && before <= now
    ensures Recency(EnsureAllLoaded(s, ids, now), now)
    decreases |ids|
  {
    if ids != [] {
      EnsureLoadedRecency(s, ids[0], before, now);
      EnsureAllLoadedRecency(EnsureLoaded(s, ids[0], now), ids[1..], now, now);
    }
  }

  lemma {:induction false} InsertEachRecency(s: Service, drvs: seq<Drv>, before: nat, now: nat)
    requires Recency(s, before) && before <= now
    ensures Recency(InsertEach(s, drvs, now), now)
    decreases |drvs|
  {
    if drvs != [] {
      var s0 := s.(db := Store(s.db, drvs[0]));
      SameRecency(s, s0, before);
      AdmitRecency(s0, drvs[0], before, now);
      SameRecency(Admit(s0, drvs[0], now), InsertDrv(s, drvs[0], now), now);
      InsertEachRecency(InsertDrv(s, drvs[0], now), drvs[1..], now, now);
    }
  }

  lemma {:induction false} LinkEachRecency(s: Service, refs: Refs, now: nat)
    requires Recency(s, now)
    ensures Recency(LinkEach(s, refs), now)
    decreases |refs|
  {
    if refs != [] {
      var t := InsertRef(s, refs[0].0, refs[0].1);
      assert t.graph.nodes.Keys == s.graph.nodes.Keys;
      SameRecency(s, t, now);
      LinkEachRecency(t, refs[1..], now);
    }
  }

  /** With a stamp on exactly the cached drvs, pruning the access times removes nothing. */
  lemma PruneRemovesNoTime(s: Service, cutoff: nat)
    requires Stamped(s)
    ensures Prune(s, cutoff).lastAccessed == s.lastAccessed
  {
  }

  // ---------------------------------------------------------------- runs

  lemma StepRecency(s: Service, cmd: Command, before: nat, now: nat)
    requires Recency(s, before) && before <= now
    ensures Recency(Step(s, cmd, now), now)
  {
    assert Recency(s, now);
    match cmd
    case UpdateStateCmd(id, state) => SameRecency(s, Step(s, cmd, now), now);
    case InsertDrvsCmd(drvs, refs) =>
      InsertEachRecency(s, drvs, before, now);
      LinkEachRecency(InsertEach(s, drvs, now), refs, now);
    case PropagateFailureCmd(failed) => SameRecency(s, Step(s, cmd, now), now);
    case ClearFailureCmd(failed) => SameRecency(s, Step(s, cmd, now), now);
    case QueryCmd(ids) => EnsureAllLoadedRecency(s, ids, before, now);
    case PruneCmd(cutoff) =>
      PruneRemovesNoTime(s, cutoff);
      SameRecency(s, Step(s, cmd, now), now);
  }

  /** The clock does not go back. */
  predicate Clocked(start: nat, cmds: seq<(Command, nat)>)
    decreases |cmds|
  {
    cmds != [] ==> start <= cmds[0].1 && Clocked(cmds[0].1, cmds[1..])
  }

  function End(start: nat, cmds: seq<(Command, nat)>): nat {
    if cmds == [] then start else cmds[|cmds| - 1].1
  }

  lemma {:induction false} RunRecency(s: Service, start: nat, cmds: seq<(Command, nat)>)
    requires Recency(s, start) && Clocked(start, cmds)
    ensures Recency(Run(s, cmds), End(start, cmds))
    decreases |cmds|
  {
    if cmds != [] {
      StepRecency(s, cmds[0].0, start, cmds[0].1);
      RunRecency(Step(s, cmds[0].0, cmds[0].1), cmds[0].1, cmds[1..]);
    }
  }

  /** From startup, over every run, whatever it inserts. */
  lemma EveryRunIsStamped(db: Database, capacity: nat, rows: seq<Drv>, failures: seq<DrvId>, now: nat, cmds: seq<(Command, nat)>)
    requires 0 < capacity && Clocked(now, cmds)
    ensures Recency(Run(Start(db, capacity, rows, failures, now), cmds), End(now, cmds))
  {
    RunRecency(Start(db, capacity, rows, failures, now), now, cmds);
  }

  /** What an insertion evicts is a drv that no cached drv was accessed before. */
  lemma VictimIsLeastRecent(s: Service, drv: Drv, now: nat, n: DrvId, victim: DrvId)
    requires Recency(s, now) && drv.id !in s.graph.nodes && n in s.graph.nodes
    requires victim in s.graph.nodes && victim !in Admit(s, drv, now).graph.nodes
    ensures s.lastAccessed[victim] <= s.lastAccessed[n]
  {
    assert victim == s.graph.order[0] by { assert victim in s.graph.order; }
    assert n in s.graph.order;
    var i :| 0 <= i < |s.graph.order| && s.graph.order[i] == n;
    assert Time(s.lastAccessed, s.graph.order[0]) <= Time(s.lastAccessed, s.graph.order[i]);
  }
}
