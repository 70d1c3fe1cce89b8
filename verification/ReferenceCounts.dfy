/**
 How far the reference counts are from the numbers of cached referrers that they stand for:
 which steps keep an exact count exact, and which let it exceed.
 */
module ReferenceCounts {
  import opened Sequences
  import opened Drvs
  import opened Reachability
  import opened Graphs
  import opened Services
  import opened Mirror
  import opened Startup

  /** By how much a count exceeds the number of cached referrers. */
  function Excess(s: Service, x: DrvId): int {
    Count(s.refCounts, x) - |Referrers(s.graph.nodes, x)|
  }

  predicate Exact(s: Service, x: DrvId) {
    Excess(s, x) == 0
  }

  // ---------------------------------------------------------------- new edges

  lemma ReferrersAfterLink(g: Graph, referrer: DrvId, reference: DrvId)
    ensures Referrers(AddEdge(g, referrer, reference).nodes, reference)
         == Referrers(g.nodes, reference) + if referrer in g.nodes then {referrer} else {}
  {
    AddEdgesEffect(g, [(referrer, reference)]);
    assert AddEdges(g, [(referrer, reference)]) == AddEdge(g, referrer, reference);
  }

  /**
   An exact count stays exact through InsertRef only if the edge is new to a cached referrer;
   in every other case the count exceeds the number of cached referrers afterwards.
   */
  lemma InsertRefExactIff(s: Service, referrer: DrvId, reference: DrvId)
    requires Exact(s, reference)
    ensures Exact(InsertRef(s, referrer, reference), reference) <==>
            referrer in s.graph.nodes && reference !in s.graph.nodes[referrer].dependencies
  {
    ReferrersAfterLink(s.graph, referrer, reference);
    var before := Referrers(s.graph.nodes, reference);
    if referrer in before { assert before + {referrer} == before; }
  }

  // ---------------------------------------------------------------- evictions

  predicate Full(g: Graph) {
    |g.order| == g.capacity
  }

  /** A cached drv that the insertion of an uncached drv does not displace. */
  predicate Stays(g: Graph, a: DrvId) {
    a in g.nodes && !Displaced(g, a)
  }

  lemma {:induction false} DropAllExactly(counts: Counts, nodes: Nodes, ids: seq<DrvId>, x: DrvId)
    requires NoDuplicates(ids)
    ensures Count(DropAll(counts, nodes, ids), x) == Count(counts, x) - (if x in ids && Count(counts, x) > 0 then 1 else 0)
    decreases |ids|
  {
    if ids != [] {
      assert ids == [ids[0]] + ids[1..];
      DropAllExactly(Drop(counts, nodes, ids[0]), nodes, ids[1..], x);
    }
  }

  /** Entries that reach zero go away unless the drv is cached; no other entry comes or goes. */
  lemma {:induction false} DropAllEntries(counts: Counts, nodes: Nodes, ids: seq<DrvId>, x: DrvId)
    requires NoDuplicates(ids)
    ensures x in DropAll(counts, nodes, ids) <==> x in counts && (x !in ids || x in nodes || counts[x] > 1)
    decreases |ids|
  {
    if ids != [] {
      assert ids == [ids[0]] + ids[1..];
      DropAllEntries(Drop(counts, nodes, ids[0]), nodes, ids[1..], x);
    }
  }

  /** Nothing is left of an evicted drv: no count, no access time, no view entry. */
  lemma EvictedIsForgotten(s: Service, drv: Drv, now: nat)
    requires drv.id !in s.graph.nodes && Full(s.graph)
    ensures var t, victim := Admit(s, drv, now), s.graph.order[0];
            victim !in t.graph.nodes && victim !in t.refCounts && victim !in t.lastAccessed && victim !in t.view
  {
    assert s.graph.order[0] in s.graph.order;
  }

  /** The count that a drv finds when it is inserted: what it had, less one if the displaced drv lists it. */
  function LeftOver(s: Service, id: DrvId): nat {
    if Full(s.graph) && id in s.graph.nodes[s.graph.order[0]].dependencies && Count(s.refCounts, id) > 0
    then Count(s.refCounts, id) - 1
    else Count(s.refCounts, id)
  }

  lemma AdmitCounts(s: Service, drv: Drv, now: nat, x: DrvId)
    requires drv.id !in s.graph.nodes && !Displaced(s.graph, x)
    requires forall n :: n in s.graph.nodes ==> NoDuplicates(s.graph.nodes[n].dependencies)
    ensures Count(Admit(s, drv, now).refCounts, x) == LeftOver(s, x)
  {
    if Full(s.graph) {
      var victim := s.graph.order[0];
      AdmitEvicts(s, drv, now, x);
      DropAllExactly(s.refCounts, Admit(s, drv, now).graph.nodes, s.graph.nodes[victim].dependencies, x);
    } else {
      AdmitWithRoom(s, drv, now, x);
    }
  }

  /** How the number of cached referrers changes when a full cache drops its oldest entry. */
  lemma EvictionReferrers(s: Service, drv: Drv, now: nat, x: DrvId)
    requires drv.id !in s.graph.nodes && Full(s.graph) && x != s.graph.order[0]
    ensures var victim := s.graph.order[0];
            && victim in s.graph.nodes
            && |Referrers(Admit(s, drv, now).graph.nodes, x)|
            == |Referrers(s.graph.nodes, x)| - (if x in s.graph.nodes[victim].dependencies then 1 else 0)
  {
    var nodes, victim := Admit(s, drv, now).graph.nodes, s.graph.order[0];
    AdmitEvicts(s, drv, now, x);
    assert nodes - {drv.id} == s.graph.nodes - {victim};
    ReferrersAfterSwap(s.graph.nodes, nodes, victim, drv.id, x);
    LessOne(Referrers(s.graph.nodes, x), victim);
  }

  lemma ListedIsCounted(s: Service, n: DrvId, x: DrvId)
    requires CoveredAt(s, x) && n in s.graph.nodes && x in s.graph.nodes[n].dependencies
    ensures Count(s.refCounts, x) > 0
  {
    assert n in Referrers(s.graph.nodes, x);
  }

  /** The clean-up after an evicted node keeps every other cached drv's excess, whether it has one or not. */
  lemma AdmitKeepsExcess(s: Service, drv: Drv, now: nat, x: DrvId)
    requires drv.id !in s.graph.nodes && Stays(s.graph, x) && CoveredAt(s, x)
    requires forall n :: n in s.graph.nodes ==> NoDuplicates(s.graph.nodes[n].dependencies)
    ensures Excess(Admit(s, drv, now), x) == Excess(s, x)
  {
    AdmitCounts(s, drv, now, x);
    if Full(s.graph) {
      var victim := s.graph.order[0];
      EvictionReferrers(s, drv, now, x);
      if x in s.graph.nodes[victim].dependencies { ListedIsCounted(s, victim, x); }
    } else {
      AdmitWithRoom(s, drv, now, x);
    }
  }

  lemma LessOne(referrers: set<DrvId>, n: DrvId)
    ensures |referrers - {n}| == |referrers| - (if n in referrers then 1 else 0)
  {
    if n !in referrers { assert referrers - {n} == referrers; }
  }

  // ---------------------------------------------------------------- reloads

  function Firsts(rows: Refs): set<DrvId> {
    set e | e in rows :: e.0
  }

  /** Rows to one drv are as many as their referrers exactly if no row occurs twice. */
  lemma {:induction false} FirstsSize(rows: Refs, x: DrvId)
    requires forall e :: e in rows ==> e.1 == x
    ensures |Firsts(rows)| <= |rows|
    ensures |Firsts(rows)| == |rows| <==> NoDuplicates(rows)
    decreases |rows|
  {
    if rows != [] {
      var rest := Firsts(rows[1..]);
      FirstsSize(rows[1..], x);
      FirstsCons(rows);
      NoDuplicatesCons(rows);
      if rows[0].0 in rest {
        assert {rows[0].0} + rest == rest;
        var e :| e in rows[1..] && e.0 == rows[0].0;
        assert e == rows[0];
      }
    }
  }

  lemma FirstsCons(rows: Refs)
    requires rows != []
    ensures Firsts(rows) == {rows[0].0} + Firsts(rows[1..])
  {
    assert forall e :: e in rows <==> e == rows[0] || e in rows[1..];
  }

  lemma NoDuplicatesCons(rows: Refs)
    requires rows != []
    ensures NoDuplicates(rows) <==> rows[0] !in rows[1..] && NoDuplicates(rows[1..])
  {
    if rows[0] in rows[1..] {
      var i :| 0 <= i < |rows[1..]| && rows[1..][i] == rows[0];
      assert rows[i + 1] == rows[0];
    } else if NoDuplicates(rows[1..]) {
      forall i, j | 0 <= i < j < |rows| ensures rows[i] != rows[j] {
        assert rows[j] == rows[1..][j - 1];
        if i > 0 { assert rows[i] == rows[1..][i - 1]; }
      }
    } else {
      var i, j :| 0 <= i < j < |rows[1..]| && rows[1..][i] == rows[1..][j];
      assert rows[i + 1] == rows[j + 1];
    }
  }

  /** A part is as large as the whole exactly if it is the whole. */
  lemma PartIsWhole(part: set<DrvId>, whole: set<DrvId>)
    requires part <= whole
    ensures |part| <= |whole|
    ensures |part| == |whole| <==> whole <= part
  {
    assert whole == part + (whole - part);
    if |part| == |whole| { assert whole - part == {}; }
  }

  /** What a reload counts for the reloaded drv: the left-over, and every stored row, cached referrer or not. */
  lemma ReloadCount(s: Service, id: DrvId, now: nat)
    requires Adjacent(s) && id !in s.graph.nodes && id in s.db.drvs
    ensures Count(EnsureLoaded(s, id, now).refCounts, id)
         == LeftOver(s, id) + |RefsTo(RefsFrom(s.db.refs, id), id)| + |RefsTo(s.db.refs, id)|
  {
    var m := Admit(s, StoredDrv(s.db, id), now);
    var up, down := RefsFrom(s.db.refs, id), RefsTo(s.db.refs, id);
    AdjacentIsDistinct(s);
    NotDisplaced(s.graph, id);
    AdmitCounts(s, StoredDrv(s.db, id), now, id);
    BumpAllCounts(m.refCounts, up, id);
    BumpAllCounts(BumpAll(m.refCounts, up), down, id);
    RowsTwice(s.db.refs, id);
  }

  lemma NotDisplaced(g: Graph, id: DrvId)
    requires id !in g.nodes
    ensures !Displaced(g, id)
  {
    if |g.order| == g.capacity { assert g.order[0] in g.order; }
  }

  lemma {:induction false} RowsTwice(refs: Refs, id: DrvId)
    ensures RefsTo(RefsTo(refs, id), id) == RefsTo(refs, id)
    decreases |refs|
  {
    if refs != [] {
      RowsTwice(refs[1..], id);
      var rest := RefsTo(refs[1..], id);
      if refs[0].1 == id {
        var rows := [refs[0]] + rest;
        assert rows[0] == refs[0] && rows[1..] == rest;
        assert RefsTo(rows, id) == [rows[0]] + RefsTo(rows[1..], id);
      } else {
        assert [] + rest == rest;
      }
    }
  }

  lemma NoRows(rows: Refs)
    ensures |rows| == 0 <==> forall e :: e !in rows
  {
    if |rows| > 0 { assert rows[0] in rows; }
  }

  /** The cached referrers of a reloaded drv are those of its stored referrers that stay cached, and itself if it refers to itself. */
  lemma ReloadReferrersAre(s: Service, id: DrvId, now: nat, a: DrvId)
    requires Invariant(s) && id !in s.graph.nodes && id in s.db.drvs
    ensures a in Referrers(EnsureLoaded(s, id, now).graph.nodes, id)
       <==> (a, id) in s.db.refs && (a == id || Stays(s.graph, a))
  {
    var t := EnsureLoaded(s, id, now);
    ReloadAdjacent(s, id, now);
    ReloadNodes(s, id, now);
    if a != id { AdmitDisplaces(s, StoredDrv(s.db, id), now, a); }
    if a in t.graph.nodes { assert AdjacentAt(t.graph.nodes, t.db.refs, a); }
  }

  /** Every stored referrer stays cached, and nothing is counted that should not be. */
  ghost predicate CountsExactly(s: Service, id: DrvId) {
    && LeftOver(s, id) == 0
    && (id, id) !in s.db.refs
    && NoDuplicates(RefsTo(s.db.refs, id))
    && forall a :: (a, id) in s.db.refs ==> Stays(s.graph, a)
  }

  /**
   A reloaded drv's count is exact if and only if none was left over from before, it does not
   refer to itself, no row is stored twice (the unique key), and every stored referrer stays cached.
   */
  lemma ReloadExactIff(s: Service, id: DrvId, now: nat)
    requires Invariant(s) && id !in s.graph.nodes && id in s.db.drvs
    ensures Exact(EnsureLoaded(s, id, now), id) <==> CountsExactly(s, id)
  {
    var rows, own := RefsTo(s.db.refs, id), RefsTo(RefsFrom(s.db.refs, id), id);
    var referrers := Referrers(EnsureLoaded(s, id, now).graph.nodes, id);
    ReloadCount(s, id, now);
    forall a ensures a in referrers <==> (a, id) in s.db.refs && (a == id || Stays(s.graph, a)) { ReloadReferrersAre(s, id, now, a); }
    forall a ensures a in Firsts(rows) <==> (a, id) in s.db.refs { FirstsAre(s.db.refs, id, a); }
    FirstsSize(rows, id);
    PartIsWhole(referrers, Firsts(rows));
    NoRows(own);
    OwnRows(s.db.refs, id);
  }

  lemma FirstsAre(refs: Refs, id: DrvId, a: DrvId)
    ensures a in Firsts(RefsTo(refs, id)) <==> (a, id) in refs
  {
    if (a, id) in refs { assert (a, id) in RefsTo(refs, id); }
  }

  lemma OwnRows(refs: Refs, id: DrvId)
    ensures (forall e :: e !in RefsTo(RefsFrom(refs, id), id)) <==> (id, id) !in refs
  {
    assert forall e :: e in RefsTo(RefsFrom(refs, id), id) ==> e == (id, id);
    assert (id, id) in refs ==> (id, id) in RefsTo(RefsFrom(refs, id), id);
  }

  /** A reload changes the excess of another drv only by rows that are stored more than once. */
  lemma ReloadKeepsExcess(s: Service, id: DrvId, now: nat, x: DrvId)
    requires Invariant(s) && id !in s.graph.nodes && id in s.db.drvs && Stays(s.graph, x)
    ensures var rows := RefsTo(RefsFrom(s.db.refs, id), x);
            Excess(EnsureLoaded(s, id, now), x) == Excess(s, x) + if rows == [] then 0 else |rows| - 1
  {
    var t, m := EnsureLoaded(s, id, now), Admit(s, StoredDrv(s.db, id), now);
    var up, down, rows := RefsFrom(s.db.refs, id), RefsTo(s.db.refs, id), RefsTo(RefsFrom(s.db.refs, id), x);
    AdjacentIsDistinct(s);
    assert CoveredAt(s, x);
    AdmitKeepsExcess(s, StoredDrv(s.db, id), now, x);
    BumpAllCounts(m.refCounts, up, x);
    BumpAllCounts(BumpAll(m.refCounts, up), down, x);
    NoRows(RefsTo(down, x));
    ReloadAddsReferrer(s, id, now, x);
    NoRows(rows);
    assert (id, x) in s.db.refs <==> (id, x) in rows;
  }

  lemma ReloadReferrerAt(s: Service, id: DrvId, now: nat, x: DrvId, n: DrvId)
    requires Mirrored(s) && id !in s.graph.nodes && id in s.db.drvs && x != id
    ensures var t, m := EnsureLoaded(s, id, now), Admit(s, StoredDrv(s.db, id), now);
            && id !in Referrers(m.graph.nodes, x)
            && (n in Referrers(t.graph.nodes, x) <==> n in Referrers(m.graph.nodes, x) || (n == id && (id, x) in s.db.refs))
  {
    ReloadNodes(s, id, now);
  }

  lemma AddsOne(before: set<DrvId>, after: set<DrvId>, id: DrvId, added: bool)
    requires id !in before && forall n :: n in after <==> n in before || (n == id && added)
    ensures |after| == |before| + if added then 1 else 0
  {
    assert after == if added then before + {id} else before;
  }

  lemma ReloadAddsReferrer(s: Service, id: DrvId, now: nat, x: DrvId)
    requires Mirrored(s) && id !in s.graph.nodes && id in s.db.drvs && x != id
    ensures var t, m := EnsureLoaded(s, id, now), Admit(s, StoredDrv(s.db, id), now);
            |Referrers(t.graph.nodes, x)| == |Referrers(m.graph.nodes, x)| + if (id, x) in s.db.refs then 1 else 0
  {
    var before := Referrers(Admit(s, StoredDrv(s.db, id), now).graph.nodes, x);
    var after := Referrers(EnsureLoaded(s, id, now).graph.nodes, x);
    ReloadReferrerAt(s, id, now, x, id);
    forall n ensures n in after <==> n in before || (n == id && (id, x) in s.db.refs) { ReloadReferrerAt(s, id, now, x, n); }
    AddsOne(before, after, id, (id, x) in s.db.refs);
  }

  // ---------------------------------------------------------------- startup

  /** Startup counts exactly the cached referrers of every drv, cached or not. */
  lemma StartIsExact(db: Database, capacity: nat, rows: seq<Drv>, failures: seq<DrvId>, now: nat, x: DrvId)
    requires 0 < capacity
    ensures Exact(Start(db, capacity, rows, failures, now), x)
  {
    var s := Start(db, capacity, rows, failures, now);
    if x !in s.refCounts { UnlistedIsCovered(s, x); }
  }
}
