/**
 Routing tables over any kind of key: routes are replayed in order, each replacing an
 earlier one for the same key, and a lookup takes the longest key that matches (section
 5.2.4.3 of RFC 1812). Matching and length are those of one destination address.
 */
module RouteTables {

  datatype Route<+K> = Unreachable(cidr: K) | ViaGateway(cidr: K)

  datatype Target = Gateway | Nowhere

  /** Replaces whatever the table has for the same key. */
  function Install<K>(table: map<K, Target>, route: Route<K>): map<K, Target> {
    match route
    case Unreachable(c) => table[c := Nowhere]
    case ViaGateway(c) => table[c := Gateway]
  }

  function Replay<K>(table: map<K, Target>, plan: seq<Route<K>>): map<K, Target>
    decreases |plan|
  {
    if plan == [] then table else Replay(Install(table, plan[0]), plan[1..])
  }

  /** First everything that is denied, then everything that is allowed. */
  function PlanOf<K>(denied: seq<K>, allowed: seq<K>): seq<Route<K>> {
    seq(|denied|, i requires 0 <= i < |denied| => Unreachable(denied[i]))
    + seq(|allowed|, i requires 0 <= i < |allowed| => ViaGateway(allowed[i]))
  }

  ghost predicate LongestMatch<K(!new)>(table: map<K, Target>, covers: K -> bool, length: K -> nat, c: K) {
    && c in table && covers(c)
    && forall d :: d in table && covers(d) ==> length(d) <= length(c)
  }

  /** Where the table sends the address; nowhere without a match. */
  ghost function Lookup<K(!new)>(table: map<K, Target>, covers: K -> bool, length: K -> nat): Target {
    if exists c :: LongestMatch(table, covers, length, c) then
      var c :| LongestMatch(table, covers, length, c);
      table[c]
    else Nowhere
  }

  /** The length of the longest match among `cs`; -1 if there is none. */
  function Longest<K(!new)>(cs: seq<K>, covers: K -> bool, length: K -> nat): (r: int)
    ensures -1 <= r
    ensures forall c :: c in cs && covers(c) ==> length(c) <= r
    ensures r >= 0 ==> exists c :: c in cs && covers(c) && length(c) == r
  {
    if cs == [] then -1
    else
      var rest := Longest(cs[1..], covers, length);
      assert forall c :: c in cs <==> c == cs[0] || c in cs[1..];
      if covers(cs[0]) && length(cs[0]) > rest then length(cs[0]) else rest
  }

  // ---------------------------------------------------------------- replaying a plan

  /** `t` is `table` with everything in `keys` set to `target`. */
  ghost predicate Overwritten<K(!new)>(table: map<K, Target>, t: map<K, Target>, keys: seq<K>, target: Target) {
    && (forall c :: c in t <==> c in table || c in keys)
    && (forall c :: c in t ==> t[c] == if c in keys then target else table[c])
  }

  lemma OverwrittenCons<K(!new)>(table: map<K, Target>, t: map<K, Target>, keys: seq<K>, target: Target)
    requires keys != [] && Overwritten(table[keys[0] := target], t, keys[1..], target)
    ensures Overwritten(table, t, keys, target)
  {
    assert forall c :: c in keys <==> c == keys[0] || c in keys[1..];
  }

  lemma {:induction false} ReplayConcat<K>(table: map<K, Target>, first: seq<Route<K>>, second: seq<Route<K>>)
    ensures Replay(table, first + second) == Replay(Replay(table, first), second)
    decreases |first|
  {
    if first == [] {
      assert first + second == second;
    } else {
      assert (first + second)[1..] == first[1..] + second;
      ReplayConcat(Install(table, first[0]), first[1..], second);
    }
  }

  lemma {:induction false} ReplayUniform<K(!new)>(table: map<K, Target>, plan: seq<Route<K>>, keys: seq<K>, target: Target)
    requires |plan| == |keys|
    requires forall i :: 0 <= i < |keys| ==> plan[i] == if target == Gateway then ViaGateway(keys[i]) else Unreachable(keys[i])
    ensures Overwritten(table, Replay(table, plan), keys, target)
    decreases |keys|
  {
    if keys != [] {
      ReplayUniform(table[keys[0] := target], plan[1..], keys[1..], target);
      OverwrittenCons(table, Replay(table, plan), keys, target);
    }
  }

  /** What a plan leaves in the table: allowed beats denied beats what was there. */
  lemma ReplayPlan<K(!new)>(table: map<K, Target>, denied: seq<K>, allowed: seq<K>)
    ensures var t := Replay(table, PlanOf(denied, allowed));
            && (forall c :: c in t <==> c in table || c in denied || c in allowed)
            && (forall c :: c in t ==> t[c] == if c in allowed then Gateway else if c in denied then Nowhere else table[c])
  {
    var first := seq(|denied|, i requires 0 <= i < |denied| => Unreachable(denied[i]));
    var second := seq(|allowed|, i requires 0 <= i < |allowed| => ViaGateway(allowed[i]));
    assert PlanOf(denied, allowed) == first + second;
    ReplayConcat(table, first, second);
    ReplayUniform(table, first, denied, Nowhere);
    ReplayUniform(Replay(table, first), second, allowed, Gateway);
  }

  lemma LongestMatchesAgree<K(!new)>(table: map<K, Target>, covers: K -> bool, length: K -> nat, c: K, d: K)
    requires LongestMatch(table, covers, length, c) && LongestMatch(table, covers, length, d)
    ensures length(c) == length(d)
  {
  }

  /**
   A replayed plan sends the address to the gateway exactly if its longest allowed match is
   at least as long as its longest denied match. Needed for that: matches of equal length are
   the same key, something allowed always matches, and older entries are all replaced.
   */
  lemma PlanDecides<K(!new)>(table: map<K, Target>, denied: seq<K>, allowed: seq<K>, covers: K -> bool, length: K -> nat)
    requires forall c, d | (c in denied || c in allowed) && (d in denied || d in allowed) ::
               covers(c) && covers(d) && length(c) == length(d) ==> c == d
    requires forall c :: c in table ==> c in denied || c in allowed
    requires exists c :: c in allowed && covers(c)
    ensures Lookup(Replay(table, PlanOf(denied, allowed)), covers, length) == Gateway
       <==> Longest(allowed, covers, length) >= Longest(denied, covers, length)
  {
    var t := Replay(table, PlanOf(denied, allowed));
    ReplayPlan(table, denied, allowed);
    var up, down := Longest(allowed, covers, length), Longest(denied, covers, length);
    var best := if up >= down then up else down;
    var w :| (w in allowed || w in denied) && covers(w) && length(w) == best;
    assert LongestMatch(t, covers, length, w);
    var c :| LongestMatch(t, covers, length, c) && Lookup(t, covers, length) == t[c];
    LongestMatchesAgree(t, covers, length, c, w);
    if up >= down {
      var g :| g in allowed && covers(g) && length(g) == up;
      assert g == w;
    }
  }
}
