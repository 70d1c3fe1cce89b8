/**
 Choosing eviction candidates: three tiers, safest first, oldest first within a tier. The
 tier-by-tier selection is proved to be the beginning of one global order.
 */
module Evictions {
  import opened Sequences
  import opened Drvs
  import opened Reachability
  import opened Graphs
  import opened Services
  import opened Mirror
  import opened FailureTracking

  datatype Tier = Tier1 | Tier2 | Tier3 {
    function Rank(): nat {
      match this case Tier1 => 1 case Tier2 => 2 case Tier3 => 3
    }

    function TargetState(): BuildState {
      match this case Tier1 => TransitiveFailure case Tier2 => FAILED case Tier3 => SUCCEEDED
    }
  }

  const TIERS := [Tier1, Tier2, Tier3]

  datatype Config = Config(tier1Age: nat, tier2Age: nat, tier3Age: nat) {
    function MinAge(tier: Tier): nat {
      match tier case Tier1 => tier1Age case Tier2 => tier2Age case Tier3 => tier3Age
    }
  }

  datatype Candidate = Candidate(id: DrvId, tier: Tier, age: nat, refCount: nat)

  /** What a selection reads: the state index, the access times, the counts, and the clock. */
  datatype Inputs = Inputs(index: set<(BuildState, DrvId)>, lastAccessed: map<DrvId, nat>, refCounts: Counts, now: nat, config: Config)

  /** A drv without an access time counts as accessed now; a time in the future has age zero. */
  function Age(input: Inputs, id: DrvId): nat {
    var last := if id in input.lastAccessed then input.lastAccessed[id] else input.now;
    if last <= input.now then input.now - last else 0
  }

  function AsCandidate(input: Inputs, tier: Tier, id: DrvId): Candidate {
    Candidate(id, tier, Age(input, id), Count(input.refCounts, id))
  }

  predicate Eligible(input: Inputs, c: Candidate) {
    && (c.tier.TargetState(), c.id) in input.index
    && c.age == Age(input, c.id)
    && c.refCount == Count(input.refCounts, c.id) == 0
    && c.age >= input.config.MinAge(c.tier)
  }

  /** The eligible candidates of one tier. */
  function Pool(input: Inputs, tier: Tier): (r: set<Candidate>)
    ensures forall c :: c in r <==> Eligible(input, c) && c.tier == tier
  {
    set p | p in input.index && p.0 == tier.TargetState() && Eligible(input, AsCandidate(input, tier, p.1))
      :: AsCandidate(input, tier, p.1)
  }

  /** Safer tier first, then older first. */
  predicate Before(a: Candidate, b: Candidate) {
    a.tier.Rank() < b.tier.Rank() || (a.tier == b.tier && a.age > b.age)
  }

  ghost predicate Ordered(r: seq<Candidate>) {
    forall i, j :: 0 <= i < j < |r| ==> !Before(r[j], r[i])
  }

  /** `r` is a beginning, of length at most `limit`, of `pool` in order. */
  ghost predicate Best(r: seq<Candidate>, pool: set<Candidate>, limit: nat) {
    && |r| == (if |pool| <= limit then |pool| else limit)
    && NoDuplicates(r)
    && (forall c :: c in r ==> c in pool)
    && Ordered(r)
    && (forall c, k :: c in pool && c !in r && k in r ==> !Before(c, k))
  }

  // ---------------------------------------------------------------- sequences without duplicates

  lemma {:induction false} DistinctSize(r: seq<Candidate>)
    requires NoDuplicates(r)
    ensures |set c | c in r| == |r|
  {
    if r != [] {
      DistinctSize(r[1..]);
      assert (set c | c in r) == {r[0]} + set c | c in r[1..];
    }
  }

  lemma FullLength(r: seq<Candidate>, pool: set<Candidate>)
    requires NoDuplicates(r) && (forall c :: c in r ==> c in pool) && |r| == |pool|
    ensures forall c :: c in pool ==> c in r
  {
    DistinctSize(r);
    var members := set c | c in r;
    assert members <= pool;
    assert |pool - members| == |pool| - |members|;
  }

  // ---------------------------------------------------------------- one tier

  ghost predicate OldestFirst(r: seq<Candidate>) {
    forall i, j :: 0 <= i < j < |r| ==> r[i].age >= r[j].age
  }

  /** Stable insertion into a list that is sorted by age, oldest first. */
  function InsertByAge(sorted: seq<Candidate>, c: Candidate): (r: seq<Candidate>)
    requires OldestFirst(sorted) && NoDuplicates(sorted) && c !in sorted
    ensures OldestFirst(r) && NoDuplicates(r)
    ensures forall x :: x in r <==> x == c || x in sorted
  {
    if sorted == [] || c.age > sorted[0].age then [c] + sorted
    else
      assert forall x :: x in sorted <==> x == sorted[0] || x in sorted[1..];
      var rest := InsertByAge(sorted[1..], c);
      assert sorted[0] !in rest && forall i :: 0 <= i < |rest| ==> rest[i] in rest;
      [sorted[0]] + rest
  }

  /** Filters the bucket of the tier and sorts what is left, whatever order the bucket comes in. */
  method SortedPool(input: Inputs, tier: Tier) returns (r: seq<Candidate>)
    ensures OldestFirst(r) && NoDuplicates(r)
    ensures forall c :: c in r <==> c in Pool(input, tier)
  {
    var todo := set p | p in input.index && p.0 == tier.TargetState() :: p.1;
    r := [];
    assert forall c :: c in Pool(input, tier) ==> (c.tier.TargetState(), c.id) in input.index;
    while todo != {}
      invariant forall d :: d in todo ==> (tier.TargetState(), d) in input.index
      invariant OldestFirst(r) && NoDuplicates(r)
      invariant forall c :: c in r <==> c in Pool(input, tier) && c.id !in todo
    {
      var id :| id in todo;
      var c := AsCandidate(input, tier, id);
      if c.refCount == 0 && c.age >= input.config.MinAge(tier) {
        r := InsertByAge(r, c);
      }
      todo := todo - {id};
    }
  }

  function Truncate(r: seq<Candidate>, limit: nat): seq<Candidate> {
    if limit < |r| then r[..limit] else r
  }

  lemma TruncateIsBest(full: seq<Candidate>, pool: set<Candidate>, tier: Tier, limit: nat)
    requires OldestFirst(full) && NoDuplicates(full)
    requires forall c :: c in full <==> c in pool
    requires forall c :: c in pool ==> c.tier == tier
    ensures Best(Truncate(full, limit), pool, limit)
  {
    var r := Truncate(full, limit);
    assert pool == set c | c in full;
    DistinctSize(full);
    assert forall i :: 0 <= i < |full| ==> full[i] in full;
    assert forall m :: 0 <= m < |r| ==> r[m] == full[m] && r[m] in r;
    forall c, k | c in pool && c !in r && k in r ensures !Before(c, k) {
      var i :| 0 <= i < |full| && full[i] == c;
      var j :| 0 <= j < |r| && r[j] == k;
      assert full[j] == k && j < i;
    }
  }

  method SelectFromTier(input: Inputs, tier: Tier, limit: nat) returns (r: seq<Candidate>)
    ensures Best(r, Pool(input, tier), limit)
  {
    r := SortedPool(input, tier);
    TruncateIsBest(r, Pool(input, tier), tier, limit);
    r := Truncate(r, limit);
  }

  // ---------------------------------------------------------------- all tiers

  /** A full selection from the safer tiers followed by the best of the next tier. */
  lemma BestAppends(r: seq<Candidate>, pool: set<Candidate>, t: seq<Candidate>, next: set<Candidate>, limit: nat)
    requires |r| < limit && Best(r, pool, limit) && Best(t, next, limit - |r|)
    requires forall a, b :: a in pool && b in next ==> a.tier.Rank() < b.tier.Rank()
    ensures Best(r + t, pool + next, limit)
  {
    FullLength(r, pool);
    assert |pool + next| == |pool| + |next| by { assert pool !! next; }
    forall c | c in r + t ensures c in pool + next { }
    forall i, j | 0 <= i < j < |r + t| ensures !Before((r + t)[j], (r + t)[i]) {
      if i < |r| <= j { assert r[i] in pool && t[j - |r|] in next; }
    }
    forall c, k | c in pool + next && c !in r + t && k in r + t ensures !Before(c, k) {
      assert c in next && c !in t;
      if k in r { assert k in pool; }
    }
  }

  /** Once enough are selected, a further tier changes nothing. */
  lemma BestIsFull(r: seq<Candidate>, pool: set<Candidate>, next: set<Candidate>, limit: nat)
    requires |r| >= limit && Best(r, pool, limit)
    requires forall a, b :: a in pool && b in next ==> a.tier.Rank() < b.tier.Rank()
    ensures Best(r, pool + next, limit)
  {
    assert |pool + next| >= |pool| by { assert pool + next == pool + (next - pool); }
    forall c, k | c in pool + next && c !in r && k in r ensures !Before(c, k) {
      if c in next { assert k in pool; }
    }
  }

  /** The eligible candidates of the first `i` tiers. */
  function Pools(input: Inputs, i: nat): (r: set<Candidate>)
    requires i <= 3
    ensures forall c :: c in r <==> Eligible(input, c) && c.tier.Rank() <= i
  {
    if i == 0 then {} else Pools(input, i - 1) + Pool(input, TIERS[i - 1])
  }

  lemma PoolsAscend(input: Inputs, i: nat)
    requires i < 3
    ensures Pools(input, i + 1) == Pools(input, i) + Pool(input, TIERS[i])
    ensures forall a, b :: a in Pools(input, i) && b in Pool(input, TIERS[i]) ==> a.tier.Rank() < b.tier.Rank()
  {
    assert TIERS[i].Rank() == i + 1;
  }

  lemma NextTierAppends(input: Inputs, i: nat, r: seq<Candidate>, t: seq<Candidate>, target: nat)
    requires i < 3 && |r| < target && Best(r, Pools(input, i), target) && Best(t, Pool(input, TIERS[i]), target - |r|)
    ensures Best(r + t, Pools(input, i + 1), target)
  {
    PoolsAscend(input, i);
    BestAppends(r, Pools(input, i), t, Pool(input, TIERS[i]), target);
  }

  lemma NextTierIsSkipped(input: Inputs, i: nat, r: seq<Candidate>, target: nat)
    requires i < 3 && |r| >= target && Best(r, Pools(input, i), target)
    ensures Best(r, Pools(input, i + 1), target)
  {
    PoolsAscend(input, i);
    BestIsFull(r, Pools(input, i), Pool(input, TIERS[i]), target);
  }

  /** One tier more, unless enough candidates are selected already. */
  method AddTier(input: Inputs, i: nat, selected: seq<Candidate>, target: nat) returns (r: seq<Candidate>)
    requires i < 3 && Best(selected, Pools(input, i), target)
    ensures Best(r, Pools(input, i + 1), target)
  {
    if |selected| >= target {
      NextTierIsSkipped(input, i, selected, target);
      return selected;
    }
    var t := SelectFromTier(input, TIERS[i], target - |selected|);
    NextTierAppends(input, i, selected, t, target);
    r := selected + t;
  }

  /**
   The selection is a beginning of all eligible candidates in the global order, of length
   min(target, number of eligible candidates); truncating it at the end changes nothing.
   */
  method SelectCandidates(input: Inputs, target: nat) returns (r: seq<Candidate>)
    ensures Best(r, Pools(input, 3), target)
  {
    r := [];
    for i := 0 to 3
      invariant Best(r, Pools(input, i), target)
    {
      r := AddTier(input, i, r, target);
    }
    r := Truncate(r, target);
  }

  // ---------------------------------------------------------------- what a selection means

  /** With exact buckets no drv is selected twice, and every selected drv is cached in its tier's state. */
  lemma SelectionIsExact(g: Graph, input: Inputs, r: seq<Candidate>, target: nat)
    requires IndexExact(g) && input.index == g.index && Best(r, Pools(input, 3), target)
    ensures forall i, j :: 0 <= i < j < |r| ==> r[i].id != r[j].id
    ensures forall c :: c in r ==> c.id in g.nodes && g.nodes[c.id].state == c.tier.TargetState()
  {
    forall c | c in r ensures Eligible(input, c) { assert c in Pools(input, 3); }
    forall i, j | 0 <= i < j < |r| ensures r[i].id != r[j].id {
      assert r[i] in r && r[j] in r;
    }
  }

  /** A selected drv that is cached has no cached dependent, in any state the service can reach. */
  lemma SelectedHasNoCachedDependent(s: Service, input: Inputs, r: seq<Candidate>, target: nat, c: Candidate, n: DrvId)
    requires Invariant(s) && input.refCounts == s.refCounts && Best(r, Pools(input, 3), target)
    requires c in r && c.id in s.graph.nodes && n in s.graph.nodes
    ensures c.id !in s.graph.nodes[n].dependencies && n !in s.graph.nodes[c.id].dependents
  {
    assert c in Pools(input, 3);
    assert CoveredAt(s, c.id);
    assert Referrers(s.graph.nodes, c.id) == {};
    assert n !in Referrers(s.graph.nodes, c.id);
    assert AdjacentAt(s.graph.nodes, s.db.refs, n) && AdjacentAt(s.graph.nodes, s.db.refs, c.id);
  }

  // ---------------------------------------------------------------- the tiers written out

  /** How long ago the drv was last accessed; zero if never recorded or in the future. */
  ghost predicate Idle(input: Inputs, id: DrvId, age: nat) {
    if id in input.lastAccessed && input.lastAccessed[id] <= input.now
    then age == input.now - input.lastAccessed[id]
    else age == 0
  }

  /** In the bucket of a state that may be evicted, idle for the tier's time, and not counted by anyone. */
  ghost predicate Evictable(input: Inputs, id: DrvId, tier: nat, age: nat) {
    && Idle(input, id, age)
    && (id in input.refCounts ==> input.refCounts[id] == 0)
    && (|| (tier == 1 && (TransitiveFailure, id) in input.index && age >= input.config.tier1Age)
        || (tier == 2 && (Completed(Failure), id) in input.index && age >= input.config.tier2Age)
        || (tier == 3 && (Completed(Success), id) in input.index && age >= input.config.tier3Age))
  }

  /** Exactly the evictable drvs are eligible, each in its tier and with its age. */
  lemma EligibleIsEvictable(input: Inputs, c: Candidate)
    ensures Eligible(input, c) <==> Evictable(input, c.id, c.tier.Rank(), c.age) && c.refCount == 0
  {
  }

  /** Every evictable drv is in the pool, as a candidate of its tier. */
  lemma EvictableIsPooled(input: Inputs, id: DrvId, tier: nat, age: nat) returns (c: Candidate)
    requires Evictable(input, id, tier, age)
    ensures c in Pools(input, 3) && c.id == id && c.tier.Rank() == tier && c.age == age
  {
    c := Candidate(id, TIERS[tier - 1], age, 0);
    assert c.tier.Rank() == tier;
    EligibleIsEvictable(input, c);
  }

  /** Every selected drv is evictable. */
  lemma SelectedIsEvictable(input: Inputs, r: seq<Candidate>, target: nat, c: Candidate)
    requires Best(r, Pools(input, 3), target) && c in r
    ensures Evictable(input, c.id, c.tier.Rank(), c.age)
  {
    assert c in Pools(input, 3);
    EligibleIsEvictable(input, c);
  }

  /**
   Of two drvs of which one is selected and the other evictable but not selected, the other is
   not in an earlier tier, nor longer idle in the same tier.
   */
  lemma SelectionWrittenOut(input: Inputs, r: seq<Candidate>, target: nat, c: Candidate, id: DrvId, tier: nat, age: nat)
    requires Best(r, Pools(input, 3), target) && c in r
    requires Evictable(input, id, tier, age) && forall d :: d in r ==> d.id != id || d.tier.Rank() != tier
    ensures c.tier.Rank() < tier || (c.tier.Rank() == tier && c.age >= age)
  {
    var other := EvictableIsPooled(input, id, tier, age);
    assert other !in r;
    assert !Before(other, c);
  }

  /** While fewer drvs than asked for are selected, every evictable one is. */
  lemma ShortSelectionIsAll(input: Inputs, r: seq<Candidate>, target: nat, id: DrvId, tier: nat, age: nat)
    requires Best(r, Pools(input, 3), target) && |r| < target && Evictable(input, id, tier, age)
    ensures exists c :: c in r && c.id == id && c.tier.Rank() == tier && c.age == age
  {
    var c := EvictableIsPooled(input, id, tier, age);
    FullLength(r, Pools(input, 3));
  }

  /** The order of a selection: tier by tier, the longest idle first. */
  lemma OrderWrittenOut(input: Inputs, r: seq<Candidate>, target: nat, i: nat, j: nat)
    requires Best(r, Pools(input, 3), target) && i < j < |r|
    ensures r[i].tier.Rank() < r[j].tier.Rank() || (r[i].tier.Rank() == r[j].tier.Rank() && r[i].age >= r[j].age)
  {
    assert !Before(r[j], r[i]);
  }
}
