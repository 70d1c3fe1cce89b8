/**
 What every run of the service keeps, with evictions and reloads: the shared view is the
 projection of the cached nodes, adjacency agrees with the stored references, and the
 reference counts cover the cached referrers.
 */
module Mirror {
  import opened Wrappers
  import opened Sequences
  import opened Drvs
  import opened Reachability
  import opened Graphs
  import opened Services

  // ---------------------------------------------------------------- the invariant

  function Projection(nodes: Nodes): View {
    map n | n in nodes :: Project(nodes[n])
  }

  predicate Mirrored(s: Service) {
    s.view == Projection(s.graph.nodes)
  }

  /** Foreign keys: references are between stored drvs, and only stored drvs are cached. */
  ghost predicate Stored(s: Service) {
    && (forall e :: e in s.db.refs ==> e.0 in s.db.drvs && e.1 in s.db.drvs)
    && (forall n :: n in s.graph.nodes ==> n in s.db.drvs)
  }

  /**
   A cached drv lists exactly its stored references, once each; its dependents are stored
   referrers, and every cached referrer is among them.
   */
  ghost predicate AdjacentAt(nodes: Nodes, refs: Refs, a: DrvId)
    requires a in nodes
  {
    && (forall b :: b in nodes[a].dependencies <==> (a, b) in refs)
    && (forall b :: b in nodes[a].dependents ==> (b, a) in refs)
    && (forall b :: b in nodes && (b, a) in refs ==> b in nodes[a].dependents)
    && NoDuplicates(nodes[a].dependencies)
  }

  ghost predicate Adjacent(s: Service) {
    forall a :: a in s.graph.nodes ==> AdjacentAt(s.graph.nodes, s.db.refs, a)
  }

  /** The cached drvs that list `id` as a dependency. */
  function Referrers(nodes: Nodes, id: DrvId): set<DrvId> {
    set n | n in nodes && id in nodes[n].dependencies
  }

  ghost predicate Covered(s: Service) {
    forall x :: x in s.graph.nodes ==> |Referrers(s.graph.nodes, x)| <= Count(s.refCounts, x)
  }

  ghost predicate Invariant(s: Service) {
    Mirrored(s) && Stored(s) && Adjacent(s) && Covered(s)
  }

  // ---------------------------------------------------------------- counting

  lemma {:induction false} BumpAllCounts(counts: Counts, edges: Refs, x: DrvId)
    ensures Count(BumpAll(counts, edges), x) == Count(counts, x) + |RefsTo(edges, x)|
    decreases |edges|
  {
    if edges != [] {
      BumpAllCounts(Bump(counts, edges[0].1), edges[1..], x);
    }
  }

  /** Dropping a list without duplicates takes at most one from each count. */
  lemma {:induction false} DropAllCounts(counts: Counts, nodes: Nodes, ids: seq<DrvId>, x: DrvId)
    requires NoDuplicates(ids)
    ensures Count(DropAll(counts, nodes, ids), x) >= Count(counts, x) - (if x in ids then 1 else 0)
    decreases |ids|
  {
    if ids != [] {
      assert ids == [ids[0]] + ids[1..];
      DropAllCounts(Drop(counts, nodes, ids[0]), nodes, ids[1..], x);
    }
  }

  /** As many rows lead to `x` as there are distinct referrers, at least. */
  lemma {:induction false} ReferrersBoundRows(refs: Refs, x: DrvId, referrers: set<DrvId>)
    requires forall n :: n in referrers ==> (n, x) in refs
    ensures |referrers| <= |RefsTo(refs, x)|
    decreases |refs|
  {
    if refs == [] {
      assert referrers == {};
    } else {
      assert forall e :: e in refs <==> e == refs[0] || e in refs[1..];
      var rest := referrers - {refs[0].0};
      if refs[0].1 == x {
        ReferrersBoundRows(refs[1..], x, rest);
      } else {
        ReferrersBoundRows(refs[1..], x, referrers);
      }
    }
  }

  // ---------------------------------------------------------------- admitting a node

  /** The nodes after a fresh node went in and the evicted one, if any, went out. */
  ghost predicate Swapped(s: Service, t: Service, drv: Drv) {
    && drv.id in t.graph.nodes && t.graph.nodes[drv.id] == FromDrv(drv)
    && (forall n :: n in t.graph.nodes && n != drv.id ==> n in s.graph.nodes && t.graph.nodes[n] == s.graph.nodes[n])
    && t.db == s.db
  }

  /** Everything about admitting a fresh drv except its own count. */
  lemma AdmitFresh(s: Service, drv: Drv, now: nat)
    requires Mirrored(s) && drv.id !in s.graph.nodes
    ensures var t := Admit(s, drv, now);
            && Swapped(s, t, drv)
            && (forall n :: n in t.view <==> n in t.graph.nodes && n != drv.id)
            && (forall n :: n in t.view ==> t.view[n] == Project(t.graph.nodes[n]))
  {
  }

  ghost predicate CoveredAt(s: Service, x: DrvId) {
    |Referrers(s.graph.nodes, x)| <= Count(s.refCounts, x)
  }

  lemma CoveredIsEverywhere(s: Service)
    ensures Covered(s) <==> forall x :: x in s.graph.nodes ==> CoveredAt(s, x)
  {
  }

  /** Swapping out a victim loses exactly one referrer of each of its dependencies. */
  lemma ReferrersAfterSwap(nodes: Nodes, nodes': Nodes, victim: DrvId, added: DrvId, x: DrvId)
    requires victim in nodes && added !in nodes && added in nodes' && nodes'[added].dependencies == []
    requires nodes' - {added} == nodes - {victim}
    ensures Referrers(nodes', x) == Referrers(nodes, x) - {victim}
    ensures victim in Referrers(nodes, x) <==> x in nodes[victim].dependencies
  {
    var rest := nodes - {victim};
    assert forall n :: n in rest <==> n in nodes' && n != added;
    assert forall n :: n in rest ==> nodes'[n] == (nodes' - {added})[n];
  }

  /** Without an eviction a fresh node refers to nothing and no count changes. */
  lemma AdmitWithRoom(s: Service, drv: Drv, now: nat, x: DrvId)
    requires drv.id !in s.graph.nodes && |s.graph.order| < s.graph.capacity
    ensures var t := Admit(s, drv, now);
            Referrers(t.graph.nodes, x) == Referrers(s.graph.nodes, x) && Count(t.refCounts, x) == Count(s.refCounts, x)
  {
  }

  lemma AdmitEvicts(s: Service, drv: Drv, now: nat, x: DrvId)
    requires drv.id !in s.graph.nodes && |s.graph.order| == s.graph.capacity && x != s.graph.order[0]
    ensures var t, victim := Admit(s, drv, now), s.graph.order[0];
            && victim in s.graph.nodes && t.graph.nodes == (s.graph.nodes - {victim})[drv.id := FromDrv(drv)]
            && Count(t.refCounts, x) == Count(DropAll(s.refCounts, t.graph.nodes, s.graph.nodes[victim].dependencies), x)
  {
    assert s.graph.order[0] in s.graph.order;
  }

  lemma AdmitFreshCovered(s: Service, drv: Drv, now: nat, x: DrvId)
    requires drv.id !in s.graph.nodes && CoveredAt(s, x)
    requires forall n :: n in s.graph.nodes ==> NoDuplicates(s.graph.nodes[n].dependencies)
    requires x in Admit(s, drv, now).graph.nodes && x in s.graph.nodes
    ensures CoveredAt(Admit(s, drv, now), x)
  {
    if |s.graph.order| < s.graph.capacity {
      AdmitWithRoom(s, drv, now, x);
    } else {
      var nodes, victim := Admit(s, drv, now).graph.nodes, s.graph.order[0];
      AdmitEvicts(s, drv, now, x);
      DropAllCounts(s.refCounts, nodes, s.graph.nodes[victim].dependencies, x);
      assert nodes - {drv.id} == s.graph.nodes - {victim};
      ReferrersAfterSwap(s.graph.nodes, nodes, victim, drv.id, x);
    }
  }

  /** A drv that no cached node lists is covered by any count. */
  lemma UnlistedIsCovered(s: Service, x: DrvId)
    requires forall n :: n in s.graph.nodes ==> x !in s.graph.nodes[n].dependencies
    ensures CoveredAt(s, x)
  {
    assert Referrers(s.graph.nodes, x) == {};
  }

  // ---------------------------------------------------------------- inserting

  lemma InsertDrvSwapped(s: Service, drv: Drv, now: nat)
    requires Mirrored(s) && Stored(s) && drv.id !in s.db.drvs
    ensures var t := InsertDrv(s, drv, now);
            Stored(t) && t.db == Store(s.db, drv) && Swapped(s.(db := t.db), t, drv)
  {
    AdmitFresh(s.(db := Store(s.db, drv)), drv, now);
  }

  /** An insertion keeps the mirror whether or not the drv is cached already. */
  lemma InsertDrvMirrored(s: Service, drv: Drv, now: nat)
    requires Mirrored(s)
    ensures Mirrored(InsertDrv(s, drv, now))
  {
    var s0 := s.(db := Store(s.db, drv));
    var m, t := Admit(s0, drv, now), InsertDrv(s, drv, now);
    if drv.id !in s.graph.nodes { AdmitFresh(s0, drv, now); }
    forall a ensures ViewedAt(t, a) { assert a in m.view <==> a in m.graph.nodes && a != drv.id; }
    MirroredIsEverywhere(t);
  }

  lemma InsertDrvAdjacent(s: Service, drv: Drv, now: nat, a: DrvId)
    requires Mirrored(s) && Stored(s) && Adjacent(s) && drv.id !in s.db.drvs
    requires a in InsertDrv(s, drv, now).graph.nodes
    ensures var t := InsertDrv(s, drv, now);
            AdjacentAt(t.graph.nodes, t.db.refs, a) && drv.id !in t.graph.nodes[a].dependencies
  {
    InsertDrvSwapped(s, drv, now);
    var t := InsertDrv(s, drv, now);
    assert t.db.refs == s.db.refs;
    if a != drv.id { assert AdjacentAt(s.graph.nodes, s.db.refs, a); }
  }

  lemma InsertDrvKeeps(s: Service, drv: Drv, now: nat)
    requires Invariant(s) && drv.id !in s.db.drvs
    ensures Invariant(InsertDrv(s, drv, now))
    ensures InsertDrv(s, drv, now).db == Store(s.db, drv)
  {
    var s0 := s.(db := Store(s.db, drv));
    var m, t := Admit(s0, drv, now), InsertDrv(s, drv, now);
    InsertDrvMirrored(s, drv, now);
    InsertDrvSwapped(s, drv, now);
    forall a | a in t.graph.nodes
      ensures AdjacentAt(t.graph.nodes, t.db.refs, a) && drv.id !in t.graph.nodes[a].dependencies
    {
      InsertDrvAdjacent(s, drv, now, a);
    }
    AdjacentIsDistinct(s);
    forall x | x in t.graph.nodes ensures CoveredAt(t, x) {
      if x == drv.id {
        UnlistedIsCovered(t, x);
      } else {
        assert CoveredAt(s0, x) by { assert CoveredAt(s, x); }
        AdmitFreshCovered(s0, drv, now, x);
      }
    }
    CoveredIsEverywhere(t);
  }

  lemma AdjacentIsDistinct(s: Service)
    requires Adjacent(s)
    ensures forall n :: n in s.graph.nodes ==> NoDuplicates(s.graph.nodes[n].dependencies)
  {
    forall n | n in s.graph.nodes ensures NoDuplicates(s.graph.nodes[n].dependencies) {
      assert AdjacentAt(s.graph.nodes, s.db.refs, n);
    }
  }

  lemma InsertRefAdjacent(s: Service, referrer: DrvId, reference: DrvId)
    requires Adjacent(s)
    ensures Adjacent(InsertRef(s, referrer, reference))
  {
    var t := InsertRef(s, referrer, reference);
    var edge := (referrer, reference);
    AddEdgesEffect(s.graph, [edge]);
    assert AddEdges(s.graph, [edge]) == t.graph;
    assert forall e :: e in t.db.refs <==> e in s.db.refs || e == edge;
    forall a | a in t.graph.nodes ensures AdjacentAt(t.graph.nodes, t.db.refs, a) {
      assert AdjacentAt(s.graph.nodes, s.db.refs, a);
    }
  }

  lemma InsertRefMirrored(s: Service, referrer: DrvId, reference: DrvId)
    requires Mirrored(s)
    ensures Mirrored(InsertRef(s, referrer, reference))
  {
  }

  lemma InsertRefStored(s: Service, referrer: DrvId, reference: DrvId)
    requires Stored(s) && referrer in s.db.drvs && reference in s.db.drvs
    ensures Stored(InsertRef(s, referrer, reference))
  {
  }

  lemma InsertRefCovered(s: Service, referrer: DrvId, reference: DrvId, x: DrvId)
    requires CoveredAt(s, x)
    ensures CoveredAt(InsertRef(s, referrer, reference), x)
  {
    var t := InsertRef(s, referrer, reference);
    var before, after := Referrers(s.graph.nodes, x), Referrers(t.graph.nodes, x);
    if x == reference {
      assert after <= before + {referrer};
      SubsetSize(after, before + {referrer});
    } else {
      assert after == before;
    }
  }

  lemma InsertRefCoversAll(s: Service, referrer: DrvId, reference: DrvId)
    requires Covered(s)
    ensures Covered(InsertRef(s, referrer, reference))
  {
    var t := InsertRef(s, referrer, reference);
    forall x | x in t.graph.nodes ensures CoveredAt(t, x) {
      assert CoveredAt(s, x);
      InsertRefCovered(s, referrer, reference, x);
    }
    CoveredIsEverywhere(t);
  }

  lemma InsertRefKeeps(s: Service, referrer: DrvId, reference: DrvId)
    requires Invariant(s) && referrer in s.db.drvs && reference in s.db.drvs
    ensures Invariant(InsertRef(s, referrer, reference))
    ensures InsertRef(s, referrer, reference).db.drvs == s.db.drvs
  {
    InsertRefAdjacent(s, referrer, reference);
    InsertRefMirrored(s, referrer, reference);
    InsertRefStored(s, referrer, reference);
    InsertRefCoversAll(s, referrer, reference);
  }

  lemma SubsetSize<T>(a: set<T>, b: set<T>)
    requires a <= b
    ensures |a| <= |b|
  {
    assert b == a + (b - a);
  }

  /** New drvs: distinct ids that are not stored yet, and references between stored or new drvs. */
  ghost predicate NewDrvs(s: Service, drvs: seq<Drv>, refs: Refs) {
    && (forall i, j :: 0 <= i < j < |drvs| ==> drvs[i].id != drvs[j].id)
    && (forall i :: 0 <= i < |drvs| ==> drvs[i].id !in s.db.drvs)
    && (forall e :: e in refs ==> Known(s, drvs, e.0) && Known(s, drvs, e.1))
  }

  predicate Known(s: Service, drvs: seq<Drv>, id: DrvId) {
    id in s.db.drvs || exists i :: 0 <= i < |drvs| && drvs[i].id == id
  }

  lemma {:induction false} InsertEachKeeps(s: Service, drvs: seq<Drv>, now: nat)
    requires Invariant(s)
    requires forall i, j :: 0 <= i < j < |drvs| ==> drvs[i].id != drvs[j].id
    requires forall i :: 0 <= i < |drvs| ==> drvs[i].id !in s.db.drvs
    ensures Invariant(InsertEach(s, drvs, now))
    ensures forall id :: Known(s, drvs, id) ==> id in InsertEach(s, drvs, now).db.drvs
    decreases |drvs|
  {
    if drvs != [] {
      InsertDrvKeeps(s, drvs[0], now);
      var t := InsertDrv(s, drvs[0], now);
      InsertEachKeeps(t, drvs[1..], now);
      forall id | Known(s, drvs, id) ensures Known(t, drvs[1..], id) {
        if id !in t.db.drvs {
          var i :| 0 <= i < |drvs| && drvs[i].id == id;
          assert drvs[1..][i - 1] == drvs[i];
        }
      }
    }
  }

  lemma {:induction false} LinkEachKeeps(s: Service, refs: Refs)
    requires Invariant(s)
    requires forall e :: e in refs ==> e.0 in s.db.drvs && e.1 in s.db.drvs
    ensures Invariant(LinkEach(s, refs))
    decreases |refs|
  {
    if refs != [] {
      assert refs[0] in refs;
      InsertRefKeeps(s, refs[0].0, refs[0].1);
      LinkEachKeeps(InsertRef(s, refs[0].0, refs[0].1), refs[1..]);
    }
  }

  // ---------------------------------------------------------------- reloading

  /** The nodes after a reload: the adjacency of the reloaded drv comes from the stored references. */
  lemma ReloadNodes(s: Service, id: DrvId, now: nat)
    requires Mirrored(s) && id !in s.graph.nodes && id in s.db.drvs
    ensures var t, m := EnsureLoaded(s, id, now), Admit(s, StoredDrv(s.db, id), now);
            && t.db == s.db
            && t.graph.nodes.Keys == m.graph.nodes.Keys
            && Swapped(s, m, StoredDrv(s.db, id))
            && (forall a :: a in t.graph.nodes ==>
                 && SameButEdges(m.graph.nodes[a], t.graph.nodes[a])
                 && (forall b :: b in t.graph.nodes[a].dependencies <==>
                       b in m.graph.nodes[a].dependencies || ((a, b) in s.db.refs && (a == id || b == id)))
                 && (forall b :: b in t.graph.nodes[a].dependents <==>
                       b in m.graph.nodes[a].dependents || ((b, a) in s.db.refs && (a == id || b == id)))
                 && (NoDuplicates(m.graph.nodes[a].dependencies) ==> NoDuplicates(t.graph.nodes[a].dependencies))
                 && (a != id && ((a, id) in s.db.refs ==> id in m.graph.nodes[a].dependencies) ==>
                       t.graph.nodes[a].dependencies == m.graph.nodes[a].dependencies))
  {
    var m := Admit(s, StoredDrv(s.db, id), now);
    AdmitFresh(s, StoredDrv(s.db, id), now);
    var up, down := RefsFrom(s.db.refs, id), RefsTo(s.db.refs, id);
    AddEdgesEffect(m.graph, up);
    AddEdgesEffect(AddEdges(m.graph, up), down);
  }

  /** The entry that the insertion of an uncached drv displaces. */
  predicate Displaced(g: Graph, a: DrvId) {
    |g.order| == g.capacity && g.order[0] == a
  }

  lemma AdmitDisplaces(s: Service, drv: Drv, now: nat, a: DrvId)
    requires drv.id !in s.graph.nodes && a != drv.id
    ensures var m := Admit(s, drv, now);
            && (a in m.graph.nodes <==> a in s.graph.nodes && !Displaced(s.graph, a))
            && (a in m.graph.nodes ==> m.graph.nodes[a] == s.graph.nodes[a])
  {
  }

  /** Every cached referrer of `id`, other than the one that its reload displaces, lists it. */
  ghost predicate ReferrersListIt(g: Graph, refs: Refs, id: DrvId) {
    forall a :: a in g.nodes && !Displaced(g, a) && (a, id) in refs ==> id in g.nodes[a].dependencies
  }

  predicate ViewedAt(s: Service, a: DrvId) {
    && (a in s.view <==> a in s.graph.nodes)
    && (a in s.graph.nodes ==> s.view[a] == Project(s.graph.nodes[a]))
  }

  lemma MirroredIsEverywhere(s: Service)
    ensures Mirrored(s) <==> forall a :: ViewedAt(s, a)
  {
    if Mirrored(s) {
      forall a ensures ViewedAt(s, a) { }
    }
    if forall a :: ViewedAt(s, a) {
      forall a ensures a in s.view <==> a in s.graph.nodes { assert ViewedAt(s, a); }
      forall a | a in s.view ensures s.view[a] == Projection(s.graph.nodes)[a] { assert ViewedAt(s, a); }
      assert s.view == Projection(s.graph.nodes);
    }
  }

  /** Every other cached drv has a view entry from before the reload. */
  lemma ReloadViewKeeps(s: Service, id: DrvId, now: nat, a: DrvId)
    requires Mirrored(s) && id !in s.graph.nodes && id in s.db.drvs && a != id
    ensures var t, m := EnsureLoaded(s, id, now), Admit(s, StoredDrv(s.db, id), now);
            && (a in t.view <==> a in m.graph.nodes)
            && (a in m.graph.nodes ==> t.view[a] == Project(m.graph.nodes[a]))
  {
    AdmitFresh(s, StoredDrv(s.db, id), now);
  }

  /** The reload leaves the projection of another cached drv alone exactly if the drv does not gain an edge. */
  lemma ReloadProjection(s: Service, id: DrvId, now: nat, a: DrvId)
    requires Mirrored(s) && id !in s.graph.nodes && id in s.db.drvs && a != id
    requires a in Admit(s, StoredDrv(s.db, id), now).graph.nodes
    ensures var t, m := EnsureLoaded(s, id, now), Admit(s, StoredDrv(s.db, id), now);
            && a in t.graph.nodes
            && (Project(m.graph.nodes[a]) == Project(t.graph.nodes[a]) <==>
                ((a, id) in s.db.refs ==> id in m.graph.nodes[a].dependencies))
  {
    var t, m := EnsureLoaded(s, id, now), Admit(s, StoredDrv(s.db, id), now);
    ReloadNodes(s, id, now);
    assert SameButEdges(m.graph.nodes[a], t.graph.nodes[a]);
    if (a, id) in s.db.refs { assert id in t.graph.nodes[a].dependencies; }
  }

  lemma ReloadViewsItself(s: Service, id: DrvId, now: nat)
    requires Mirrored(s) && id !in s.graph.nodes && id in s.db.drvs
    ensures ViewedAt(EnsureLoaded(s, id, now), id)
    ensures EnsureLoaded(s, id, now).graph.nodes.Keys == Admit(s, StoredDrv(s.db, id), now).graph.nodes.Keys
  {
    ReloadNodes(s, id, now);
  }

  lemma ReloadView(s: Service, id: DrvId, now: nat, a: DrvId)
    requires Mirrored(s) && id !in s.graph.nodes && id in s.db.drvs
    ensures var t, m := EnsureLoaded(s, id, now), Admit(s, StoredDrv(s.db, id), now);
            ViewedAt(t, a) <==>
              (a in m.graph.nodes && a != id && (a, id) in s.db.refs ==> id in m.graph.nodes[a].dependencies)
  {
    ReloadViewsItself(s, id, now);
    if a != id {
      ReloadViewKeeps(s, id, now, a);
      if a in Admit(s, StoredDrv(s.db, id), now).graph.nodes { ReloadProjection(s, id, now, a); }
    }
  }

  /**
   A reload keeps the view an exact mirror if and only if every cached referrer of the reloaded
   drv that the reload does not evict already lists it: a missing edge is added to the graph alone.
   */
  lemma ReloadMirrorsIff(s: Service, id: DrvId, now: nat)
    requires Mirrored(s) && id !in s.graph.nodes && id in s.db.drvs
    ensures Mirrored(EnsureLoaded(s, id, now)) <==> ReferrersListIt(s.graph, s.db.refs, id)
  {
    var t := EnsureLoaded(s, id, now);
    forall a ensures ViewedAt(t, a) <==>
      (a in s.graph.nodes && !Displaced(s.graph, a) && (a, id) in s.db.refs ==> id in s.graph.nodes[a].dependencies)
    {
      ReloadView(s, id, now, a);
      if a != id { AdmitDisplaces(s, StoredDrv(s.db, id), now, a); }
    }
    MirroredIsEverywhere(t);
  }

  lemma ReloadAdjacent(s: Service, id: DrvId, now: nat)
    requires Invariant(s) && id !in s.graph.nodes && id in s.db.drvs
    ensures Adjacent(EnsureLoaded(s, id, now)) && Stored(EnsureLoaded(s, id, now))
  {
    var t, m := EnsureLoaded(s, id, now), Admit(s, StoredDrv(s.db, id), now);
    ReloadNodes(s, id, now);
    forall a | a in t.graph.nodes ensures AdjacentAt(t.graph.nodes, t.db.refs, a) {
      if a != id { assert AdjacentAt(s.graph.nodes, s.db.refs, a); }
    }
  }

  /** The reloaded drv is counted once for every stored row that leads to it. */
  lemma ReloadCoversItself(s: Service, id: DrvId, now: nat)
    requires Invariant(s) && id !in s.graph.nodes && id in s.db.drvs
    ensures CoveredAt(EnsureLoaded(s, id, now), id)
  {
    var t, m := EnsureLoaded(s, id, now), Admit(s, StoredDrv(s.db, id), now);
    var up, down := RefsFrom(s.db.refs, id), RefsTo(s.db.refs, id);
    ReloadAdjacent(s, id, now);
    BumpAllCounts(BumpAll(m.refCounts, up), down, id);
    var after := Referrers(t.graph.nodes, id);
    forall n | n in after ensures (n, id) in down {
      assert AdjacentAt(t.graph.nodes, t.db.refs, n);
    }
    ReferrersBoundRows(down, id, after);
  }

  /** A reload gives another drv at most one more referrer, the reloaded drv, and counts it. */
  lemma ReloadReferrers(s: Service, id: DrvId, now: nat, x: DrvId)
    requires Invariant(s) && id !in s.graph.nodes && id in s.db.drvs && x != id
    ensures var t, m := EnsureLoaded(s, id, now), Admit(s, StoredDrv(s.db, id), now);
            && Referrers(t.graph.nodes, x) <= Referrers(m.graph.nodes, x) + {id}
            && (id in Referrers(t.graph.nodes, x) ==> (id, x) in s.db.refs)
  {
    var t, m := EnsureLoaded(s, id, now), Admit(s, StoredDrv(s.db, id), now);
    ReloadNodes(s, id, now);
    ReloadAdjacent(s, id, now);
    forall n | n in Referrers(t.graph.nodes, x)
      ensures n == id || n in Referrers(m.graph.nodes, x)
      ensures n == id ==> (id, x) in s.db.refs
    {
      assert AdjacentAt(t.graph.nodes, t.db.refs, n);
    }
  }

  lemma ReloadCounts(s: Service, id: DrvId, now: nat, x: DrvId)
    requires id !in s.graph.nodes && id in s.db.drvs
    ensures var t, m := EnsureLoaded(s, id, now), Admit(s, StoredDrv(s.db, id), now);
            Count(t.refCounts, x) >= Count(m.refCounts, x) + if (id, x) in s.db.refs then 1 else 0
  {
    var m := Admit(s, StoredDrv(s.db, id), now);
    var up, down := RefsFrom(s.db.refs, id), RefsTo(s.db.refs, id);
    BumpAllCounts(m.refCounts, up, x);
    BumpAllCounts(BumpAll(m.refCounts, up), down, x);
    if (id, x) in s.db.refs { assert (id, x) in RefsTo(up, x); }
  }

  lemma ReloadCovered(s: Service, id: DrvId, now: nat, x: DrvId)
    requires Invariant(s) && id !in s.graph.nodes && id in s.db.drvs && x != id
    requires x in EnsureLoaded(s, id, now).graph.nodes
    ensures CoveredAt(EnsureLoaded(s, id, now), x)
  {
    var t, m := EnsureLoaded(s, id, now), Admit(s, StoredDrv(s.db, id), now);
    assert x in m.graph.nodes && x in s.graph.nodes by { ReloadNodes(s, id, now); }
    AdjacentIsDistinct(s);
    assert CoveredAt(s, x);
    AdmitFreshCovered(s, StoredDrv(s.db, id), now, x);
    ReloadCounts(s, id, now, x);
    ReloadReferrers(s, id, now, x);
    var before, after := Referrers(m.graph.nodes, x), Referrers(t.graph.nodes, x);
    SubsetSize(after, if id in after then before + {id} else before);
  }

  lemma EnsureLoadedKeeps(s: Service, id: DrvId, now: nat)
    requires Invariant(s)
    ensures Invariant(EnsureLoaded(s, id, now))
  {
    if id !in s.graph.nodes && id in s.db.drvs {
      var t, m := EnsureLoaded(s, id, now), Admit(s, StoredDrv(s.db, id), now);
      ReloadNodes(s, id, now);
      forall a | a in m.graph.nodes && a != id && (a, id) in s.db.refs ensures id in m.graph.nodes[a].dependencies {
        assert AdjacentAt(s.graph.nodes, s.db.refs, a);
      }
      ReloadMirrorsIff(s, id, now);
      ReloadAdjacent(s, id, now);
      forall x | x in t.graph.nodes ensures CoveredAt(t, x) {
        if x == id { ReloadCoversItself(s, id, now); } else { ReloadCovered(s, id, now, x); }
      }
      CoveredIsEverywhere(t);
    }
  }

  lemma {:induction false} EnsureAllLoadedKeeps(s: Service, ids: seq<DrvId>, now: nat)
    requires Invariant(s)
    ensures Invariant(EnsureAllLoaded(s, ids, now))
    decreases |ids|
  {
    if ids != [] {
      EnsureLoadedKeeps(s, ids[0], now);
      EnsureAllLoadedKeeps(EnsureLoaded(s, ids[0], now), ids[1..], now);
    }
  }

  // ---------------------------------------------------------------- states

  /** Steps that change states and blockers only. */
  ghost predicate StatesOnly(s: Service, t: Service) {
    && t.graph.nodes.Keys == s.graph.nodes.Keys
    && (forall n :: n in s.graph.nodes ==>
          && t.graph.nodes[n].dependencies == s.graph.nodes[n].dependencies
          && t.graph.nodes[n].dependents == s.graph.nodes[n].dependents)
    && t.db.drvs.Keys == s.db.drvs.Keys && t.db.refs == s.db.refs
    && (forall n :: n in s.graph.nodes ==> Count(t.refCounts, n) == Count(s.refCounts, n))
  }

  lemma StatesOnlyAdjacent(s: Service, t: Service)
    requires Adjacent(s) && StatesOnly(s, t)
    ensures Adjacent(t)
  {
    forall a | a in t.graph.nodes ensures AdjacentAt(t.graph.nodes, t.db.refs, a) {
      assert AdjacentAt(s.graph.nodes, s.db.refs, a);
    }
  }

  lemma StatesOnlyCovered(s: Service, t: Service, x: DrvId)
    requires CoveredAt(s, x) && StatesOnly(s, t) && x in s.graph.nodes
    ensures CoveredAt(t, x)
  {
    assert Referrers(t.graph.nodes, x) == Referrers(s.graph.nodes, x);
  }

  lemma StatesOnlyKeeps(s: Service, t: Service)
    requires Invariant(s) && StatesOnly(s, t) && Mirrored(t)
    ensures Invariant(t)
  {
    StatesOnlyAdjacent(s, t);
    forall x | x in t.graph.nodes ensures CoveredAt(t, x) {
      assert CoveredAt(s, x);
      StatesOnlyCovered(s, t, x);
    }
    CoveredIsEverywhere(t);
  }

  /** Changing the states of the same drvs in the nodes and in the view keeps the mirror. */
  lemma MirroredByStates(s: Service, t: Service, ids: set<DrvId>, state: BuildState)
    requires Mirrored(s) && t.view == SetViewState(s.view, ids, state)
    requires t.graph.nodes.Keys == s.graph.nodes.Keys
    requires forall n :: n in s.graph.nodes ==>
               Project(t.graph.nodes[n]) == if n in ids then Project(s.graph.nodes[n]).(state := state) else Project(s.graph.nodes[n])
    ensures Mirrored(t)
  {
  }

  lemma UpdateStateMirrored(s: Service, id: DrvId, state: BuildState, now: nat)
    requires Mirrored(s)
    ensures Mirrored(Services.UpdateState(s, id, state, now))
  {
    MirroredByStates(s, Services.UpdateState(s, id, state, now), {id}, state);
  }

  lemma UpdateStateStatesOnly(s: Service, id: DrvId, state: BuildState, now: nat)
    ensures StatesOnly(s, Services.UpdateState(s, id, state, now))
  {
    assert SetStoredState(s.db, {id}, state).drvs.Keys == s.db.drvs.Keys;
  }

  lemma PropagateFailureMirrored(s: Service, failed: DrvId)
    requires Mirrored(s)
    ensures Mirrored(Services.PropagateFailure(s, failed))
  {
    MirroredByStates(s, Services.PropagateFailure(s, failed), TransitiveDependents(s.graph.nodes, failed), TransitiveFailure);
  }

  lemma PropagateFailureStatesOnly(s: Service, failed: DrvId)
    ensures StatesOnly(s, Services.PropagateFailure(s, failed))
  {
    assert Services.PropagateFailure(s, failed).db.drvs.Keys == s.db.drvs.Keys;
  }

  lemma ClearFailureMirrored(s: Service, failed: DrvId)
    requires Mirrored(s)
    ensures Mirrored(Services.ClearFailure(s, failed))
  {
    MirroredByStates(s, Services.ClearFailure(s, failed), Graphs.Unblocked(s.graph, failed), Queued);
  }

  lemma ClearFailureStatesOnly(s: Service, failed: DrvId)
    ensures StatesOnly(s, Services.ClearFailure(s, failed))
  {
  }

  lemma PruneMirrored(s: Service, cutoff: nat)
    requires Mirrored(s)
    ensures Mirrored(Prune(s, cutoff)) && StatesOnly(s, Prune(s, cutoff))
  {
  }

  // ---------------------------------------------------------------- runs

  /** The only demand on a run: what it inserts is new. */
  ghost predicate FreshRun(s: Service, cmds: seq<(Command, nat)>)
    decreases |cmds|
  {
    cmds != [] ==>
      && (cmds[0].0.InsertDrvsCmd? ==> NewDrvs(s, cmds[0].0.drvs, cmds[0].0.refs))
      && FreshRun(Step(s, cmds[0].0, cmds[0].1), cmds[1..])
  }

  lemma StepKeeps(s: Service, cmd: Command, now: nat)
    requires Invariant(s) && (cmd.InsertDrvsCmd? ==> NewDrvs(s, cmd.drvs, cmd.refs))
    ensures Invariant(Step(s, cmd, now))
  {
    match cmd
    case UpdateStateCmd(id, state) =>
      UpdateStateMirrored(s, id, state, now);
      UpdateStateStatesOnly(s, id, state, now);
      StatesOnlyKeeps(s, Step(s, cmd, now));
    case InsertDrvsCmd(drvs, refs) =>
      InsertEachKeeps(s, drvs, now);
      LinkEachKeeps(InsertEach(s, drvs, now), refs);
    case PropagateFailureCmd(failed) =>
      PropagateFailureMirrored(s, failed);
      PropagateFailureStatesOnly(s, failed);
      StatesOnlyKeeps(s, Step(s, cmd, now));
    case ClearFailureCmd(failed) =>
      ClearFailureMirrored(s, failed);
      ClearFailureStatesOnly(s, failed);
      StatesOnlyKeeps(s, Step(s, cmd, now));
    case QueryCmd(ids) => EnsureAllLoadedKeeps(s, ids, now);
    case PruneCmd(cutoff) =>
      PruneMirrored(s, cutoff);
      StatesOnlyKeeps(s, Step(s, cmd, now));
  }

  /** The invariant holds after every command of every run, however often the cache overflows. */
  lemma {:induction false} RunKeeps(s: Service, cmds: seq<(Command, nat)>)
    requires Invariant(s) && FreshRun(s, cmds)
    ensures Invariant(Run(s, cmds))
    decreases |cmds|
  {
    if cmds != [] {
      StepKeeps(s, cmds[0].0, cmds[0].1);
      RunKeeps(Step(s, cmds[0].0, cmds[0].1), cmds[1..]);
    }
  }
}
