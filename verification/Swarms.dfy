/**
 Grouping nodes into swarms and finding the swarm of a pubkey
 (src/session_network.cpp:304-319, 571-627, 694-697, 1081-1107, 1678-1732).
 */
module Swarms {
  import opened Options
  import opened Ordering
  import opened NodeDisk

  const SPACE := 0x1_0000_0000_0000_0000

  datatype Swarm = Swarm(id: int, nodes: seq<Node>)

  // ----- grouping -----------------------------------------------------------------------------------

  /** The nodes with the given swarm id, in order. */
  function Members(nodes: seq<Node>, id: int): seq<Node> {
    if nodes == [] then [] else
      Members(nodes[..|nodes| - 1], id) + (if nodes[|nodes| - 1].swarmId == id then [nodes[|nodes| - 1]] else [])
  }

  ghost predicate StrictlyById(swarms: seq<Swarm>) {
    forall i, j | 0 <= i < j < |swarms| :: swarms[i].id < swarms[j].id
  }

  /** One swarm for each swarm id of a node, with exactly the nodes of that id, sorted by id. */
  ghost predicate IsPartition(swarms: seq<Swarm>, nodes: seq<Node>) {
    && StrictlyById(swarms)
    && (forall i | 0 <= i < |swarms| :: swarms[i].nodes == Members(nodes, swarms[i].id) != [])
    && (forall n | n in nodes :: exists i :: 0 <= i < |swarms| && swarms[i].id == n.swarmId)
  }

  /** The members of a swarm are listed in the order of the nodes. */
  lemma {:induction false} MembersInOrder(a: seq<Node>, b: seq<Node>, id: int)
    ensures Members(a + b, id) == Members(a, id) + Members(b, id)
    decreases |b|
  {
    if b == [] {
      assert a + b == a;
    } else {
      assert (a + b)[..|a + b| - 1] == a + b[..|b| - 1];
      MembersInOrder(a, b[..|b| - 1], id);
    }
  }

  lemma {:induction false} MembersCount(nodes: seq<Node>, id: int, n: Node)
    ensures multiset(Members(nodes, id))[n] == if n.swarmId == id then multiset(nodes)[n] else 0
    decreases |nodes|
  {
    if nodes != [] {
      MembersCount(nodes[..|nodes| - 1], id, n);
      assert nodes == nodes[..|nodes| - 1] + [nodes[|nodes| - 1]];
    }
  }

  /** Every node is in exactly one swarm, as often as it was given. */
  lemma PartitionConserves(swarms: seq<Swarm>, nodes: seq<Node>, n: Node)
    requires IsPartition(swarms, nodes) && n in nodes
    ensures exists i :: 0 <= i < |swarms| && multiset(swarms[i].nodes)[n] == multiset(nodes)[n]
                        && forall j | 0 <= j < |swarms| && j != i :: n !in swarms[j].nodes
  {
    var i :| 0 <= i < |swarms| && swarms[i].id == n.swarmId;
    MembersCount(nodes, swarms[i].id, n);
    forall j | 0 <= j < |swarms| && j != i ensures n !in swarms[j].nodes {
      MembersCount(nodes, swarms[j].id, n);
      assert swarms[j].id != swarms[i].id;
      assert multiset(swarms[j].nodes)[n] == 0;
    }
  }

  /** A partition is determined by the nodes. */
  lemma PartitionUnique(a: seq<Swarm>, b: seq<Swarm>, nodes: seq<Node>)
    requires IsPartition(a, nodes) && IsPartition(b, nodes)
    ensures a == b
  {
    forall x ensures x in a <==> x in b {
      if x in a { SwarmFound(a, b, nodes, x); }
      if x in b { SwarmFound(b, a, nodes, x); }
    }
    SortedSwarmsEqual(a, b);
  }

  lemma SwarmFound(a: seq<Swarm>, b: seq<Swarm>, nodes: seq<Node>, x: Swarm)
    requires IsPartition(a, nodes) && IsPartition(b, nodes) && x in a
    ensures x in b
  {
    var n := x.nodes[0];
    MembersCount(nodes, x.id, n);
    assert n in x.nodes && multiset(Members(nodes, x.id))[n] > 0;
    assert n in multiset(nodes);
    var j :| 0 <= j < |b| && b[j].id == n.swarmId;
    assert b[j] == x;
  }

  lemma {:induction false} SortedSwarmsEqual(a: seq<Swarm>, b: seq<Swarm>)
    requires StrictlyById(a) && StrictlyById(b) && forall x :: x in a <==> x in b
    ensures a == b
    decreases |a|
  {
    assert (a == [] || a[0] in b) && (b == [] || b[0] in a);
    if a != [] && b != [] {
      var u, v := a[0], b[0];
      assert (u == v || v.id < u.id) && (u == v || u.id < v.id);
      forall x ensures x in a[1..] <==> x in b[1..] {
        NotFirst(a, x);
        NotFirst(b, x);
      }
      SortedSwarmsEqual(a[1..], b[1..]);
      assert a == [a[0]] + a[1..] && b == [b[0]] + b[1..];
    }
  }

  lemma NotFirst(a: seq<Swarm>, x: Swarm)
    requires StrictlyById(a) && a != []
    ensures x in a[1..] <==> x in a && x != a[0]
  {
    if x in a[1..] { var i :| 1 <= i < |a| && a[i] == x; }
  }

  lemma MembersAppend(nodes: seq<Node>, i: nat, id: int)
    requires i < |nodes|
    ensures Members(nodes[..i + 1], id) == Members(nodes[..i], id) + (if nodes[i].swarmId == id then [nodes[i]] else [])
  {
    assert nodes[..i + 1][..i] == nodes[..i];
  }

  /** The map from each occurring swarm id to its nodes. */
  ghost predicate IsGrouping(grouped: map<int, seq<Node>>, nodes: seq<Node>) {
    && (forall id :: id in grouped <==> Members(nodes, id) != [])
    && (forall id | id in grouped :: grouped[id] == Members(nodes, id))
  }

  lemma GroupNext(grouped: map<int, seq<Node>>, nodes: seq<Node>, i: nat)
    requires i < |nodes| && IsGrouping(grouped, nodes[..i])
    ensures IsGrouping(grouped[nodes[i].swarmId :=
              (if nodes[i].swarmId in grouped then grouped[nodes[i].swarmId] else []) + [nodes[i]]], nodes[..i + 1])
  {
    forall id ensures Members(nodes[..i + 1], id) ==
                      Members(nodes[..i], id) + (if nodes[i].swarmId == id then [nodes[i]] else []) {
      MembersAppend(nodes, i, id);
    }
  }

  /** `order` lists every group once. */
  ghost predicate Enumerates(order: seq<int>, grouped: map<int, seq<Node>>) {
    Distinct(order) && forall id :: id in order <==> id in grouped
  }

  lemma EnumerateNext(order: seq<int>, grouped: map<int, seq<Node>>, id: int, group: seq<Node>)
    requires Enumerates(order, grouped)
    ensures Enumerates(if id in grouped then order else order + [id], grouped[id := group])
  {
  }

  /** Also lists the groups in some order, here that of first occurrence. */
  method GroupNodes(nodes: seq<Node>) returns (grouped: map<int, seq<Node>>, order: seq<int>)
    ensures IsGrouping(grouped, nodes)
    ensures Enumerates(order, grouped)
  {
    grouped, order := map[], [];
    for i := 0 to |nodes|
      invariant IsGrouping(grouped, nodes[..i])
      invariant Enumerates(order, grouped)
    {
      var n := nodes[i];
      GroupNext(grouped, nodes, i);
      var group := (if n.swarmId in grouped then grouped[n.swarmId] else []) + [n];
      EnumerateNext(order, grouped, n.swarmId, group);
      if n.swarmId !in grouped { order := order + [n.swarmId]; }
      grouped := grouped[n.swarmId := group];
    }
    assert nodes[..|nodes|] == nodes;
  }

  /** The groups visited so far, sorted by id. */
  ghost predicate Listed(swarms: seq<Swarm>, grouped: map<int, seq<Node>>, done: set<int>) {
    && StrictlyById(swarms)
    && (forall i | 0 <= i < |swarms| :: swarms[i].id in done && swarms[i].id in grouped && swarms[i].nodes == grouped[swarms[i].id])
    && (forall id | id in done :: exists i :: 0 <= i < |swarms| && swarms[i].id == id)
  }

  lemma InsertSorted(swarms: seq<Swarm>, p: nat, x: Swarm)
    requires StrictlyById(swarms) && p <= |swarms|
    requires (forall q | 0 <= q < p :: swarms[q].id < x.id) && (p < |swarms| ==> x.id < swarms[p].id)
    ensures StrictlyById(InsertAt(swarms, p, x))
  {
    var r := InsertAt(swarms, p, x);
    forall i, j | 0 <= i < j < |r| ensures r[i].id < r[j].id {
      if j > p { assert r[j] == swarms[j - 1]; assert p < |swarms| && (p == j - 1 || swarms[p].id < swarms[j - 1].id); }
    }
  }

  lemma ListNext(swarms: seq<Swarm>, grouped: map<int, seq<Node>>, done: set<int>, p: nat, id: int)
    requires Listed(swarms, grouped, done) && id in grouped && id !in done && p <= |swarms|
    requires (forall q | 0 <= q < p :: swarms[q].id < id) && (p < |swarms| ==> id <= swarms[p].id)
    ensures Listed(InsertAt(swarms, p, Swarm(id, grouped[id])), grouped, done + {id})
  {
    var x := Swarm(id, grouped[id]);
    var r := InsertAt(swarms, p, x);
    assert p < |swarms| ==> swarms[p].id in done;
    InsertSorted(swarms, p, x);
    InsertedHas(swarms, p, x, done);
    forall i | 0 <= i < |r| ensures r[i].id in done + {id} && r[i].id in grouped && r[i].nodes == grouped[r[i].id] {
      if i > p { assert r[i] == swarms[i - 1]; }
    }
  }

  /** The groups come out of the hash map in any order and are then sorted by id. */
  method SortGroups(grouped: map<int, seq<Node>>, order: seq<int>) returns (swarms: seq<Swarm>)
    requires Enumerates(order, grouped)
    ensures Listed(swarms, grouped, grouped.Keys)
  {
    swarms := [];
    ghost var done: set<int> := {};
    for i := 0 to |order|
      invariant Visited(order, i, done) && done <= grouped.Keys && Listed(swarms, grouped, done)
    {
      var id := order[i];
      VisitNext(order, i, done);
      var p := LowerBound(swarms, id);
      ListNext(swarms, grouped, done, p, id);
      swarms := InsertAt(swarms, p, Swarm(id, grouped[id]));
      done := done + {id};
    }
    forall id: int | id in grouped.Keys ensures id in done { assert id in order; }
  }

  method GenerateSwarms(nodes: seq<Node>) returns (swarms: seq<Swarm>)
    ensures IsPartition(swarms, nodes)
  {
    var grouped, order := GroupNodes(nodes);
    swarms := SortGroups(grouped, order);
    forall n | n in nodes ensures exists i :: 0 <= i < |swarms| && swarms[i].id == n.swarmId {
      MembersCount(nodes, n.swarmId, n);
      assert multiset(Members(nodes, n.swarmId))[n] > 0;
      assert n.swarmId in grouped;
    }
  }

  function InsertAt(s: seq<Swarm>, p: nat, x: Swarm): (r: seq<Swarm>)
    requires p <= |s|
    ensures |r| == |s| + 1 && r[p] == x
    ensures forall i | 0 <= i < p :: r[i] == s[i]
    ensures forall i | p < i < |r| :: r[i] == s[i - 1]
  {
    s[..p] + [x] + s[p..]
  }

  lemma InsertedHas(s: seq<Swarm>, p: nat, x: Swarm, ids: set<int>)
    requires p <= |s| && forall id | id in ids :: exists i :: 0 <= i < |s| && s[i].id == id
    ensures forall id | id in ids + {x.id} :: exists i :: 0 <= i < |s| + 1 && InsertAt(s, p, x)[i].id == id
  {
    var r := InsertAt(s, p, x);
    forall id | id in ids + {x.id} ensures exists i :: 0 <= i < |r| && r[i].id == id {
      if id == x.id {
        assert r[p].id == id;
      } else {
        var i :| 0 <= i < |s| && s[i].id == id;
        if i < p { assert r[i].id == id; } else { assert r[i + 1].id == id; }
      }
    }
  }

  // ----- distances ----------------------------------------------------------------------------------

  /** 64-bit subtraction `to - from`: the way from one point up to the other, around the circle. */
  function Gap(from: int, to: int): (g: int)
    requires 0 <= from < SPACE && 0 <= to < SPACE
    ensures 0 <= g < SPACE
  {
    if from <= to then to - from else to - from + SPACE
  }

  /** The shorter of the two ways around. */
  function Distance(a: int, b: int): int
    requires 0 <= a < SPACE && 0 <= b < SPACE
  {
    if Gap(a, b) <= Gap(b, a) then Gap(a, b) else Gap(b, a)
  }

  ghost predicate InSpace(swarms: seq<Swarm>) {
    forall i | 0 <= i < |swarms| :: 0 <= swarms[i].id < SPACE
  }

  /** A swarm of least circular distance; when another is as near, this one is on the left. */
  ghost predicate IsNearest(s: Swarm, swarms: seq<Swarm>, x: int)
    requires InSpace(swarms) && 0 <= x < SPACE
  {
    && s in swarms && 0 <= s.id < SPACE
    && (forall i | 0 <= i < |swarms| :: Distance(s.id, x) <= Distance(swarms[i].id, x))
    && (forall i | 0 <= i < |swarms| && swarms[i].id != s.id && Distance(swarms[i].id, x) == Distance(s.id, x) ::
          Gap(s.id, x) == Distance(s.id, x))
  }

  /** The shorter way around the ring of all 64-bit ids. */
  function Circular(a: int, b: int): int {
    var d := if a <= b then b - a else a - b;
    if d <= 0x1_0000_0000_0000_0000 - d then d else 0x1_0000_0000_0000_0000 - d
  }

  /** Going up from `id`, with wrap-around, reaches `x` by the shorter way. */
  predicate OnTheLeft(id: int, x: int) {
    (x - id + 0x1_0000_0000_0000_0000) % 0x1_0000_0000_0000_0000 == Circular(id, x)
  }

  /** The nearest swarm is strictly nearer than every other, or as near and on the left. */
  lemma NearestIff(s: Swarm, swarms: seq<Swarm>, x: int)
    requires InSpace(swarms) && 0 <= x < SPACE
    ensures IsNearest(s, swarms, x) <==>
            s in swarms && forall i | 0 <= i < |swarms| ::
              || swarms[i].id == s.id || Circular(s.id, x) < Circular(swarms[i].id, x)
              || (Circular(s.id, x) == Circular(swarms[i].id, x) && OnTheLeft(s.id, x))
  {
    forall i | 0 <= i < |swarms| ensures Distance(swarms[i].id, x) == Circular(swarms[i].id, x) { }
    if s in swarms {
      assert 0 <= s.id < SPACE && Distance(s.id, x) == Circular(s.id, x);
      GapIs(s.id, x);
    }
  }

  lemma GapIs(a: int, b: int)
    requires 0 <= a < SPACE && 0 <= b < SPACE
    ensures Gap(a, b) == (b - a + 0x1_0000_0000_0000_0000) % 0x1_0000_0000_0000_0000
  {
    if a <= b {
      assert (b - a + SPACE) % SPACE == (b - a) % SPACE;
    }
  }

  /** There is only one such swarm. */
  lemma NearestUnique(s: Swarm, t: Swarm, swarms: seq<Swarm>, x: int)
    requires StrictlyById(swarms) && InSpace(swarms) && 0 <= x < SPACE
    requires IsNearest(s, swarms, x) && IsNearest(t, swarms, x)
    ensures s == t
  {
    var i :| 0 <= i < |swarms| && swarms[i] == s;
    var j :| 0 <= j < |swarms| && swarms[j] == t;
  }

  /** `std::lower_bound`: the first swarm whose id is not below `x`. */
  method LowerBound(swarms: seq<Swarm>, x: int) returns (r: nat)
    requires StrictlyById(swarms)
    ensures r <= |swarms|
    ensures forall i | 0 <= i < r :: swarms[i].id < x
    ensures forall i | r <= i < |swarms| :: x <= swarms[i].id
  {
    var lo, hi := 0, |swarms|;
    while lo < hi
      invariant 0 <= lo <= hi <= |swarms|
      invariant forall i | 0 <= i < lo :: swarms[i].id < x
      invariant forall i | hi <= i < |swarms| :: x <= swarms[i].id
    {
      var mid := (lo + hi) / 2;
      if swarms[mid].id < x { lo := mid + 1; } else { hi := mid; }
    }
    r := lo;
  }

  /** The boundaries found by the lookup are the nearest swarms to the right and to the left. */
  lemma Boundaries(swarms: seq<Swarm>, x: int, b: nat, right: nat, left: nat)
    requires StrictlyById(swarms) && InSpace(swarms) && 0 <= x < SPACE && |swarms| >= 2 && b <= |swarms|
    requires (forall i | 0 <= i < b :: swarms[i].id < x) && (forall i | b <= i < |swarms| :: x <= swarms[i].id)
    requires right == (if b == |swarms| then 0 else b) && left == (if right == 0 then |swarms| - 1 else right - 1)
    ensures forall i | 0 <= i < |swarms| :: Gap(x, swarms[right].id) <= Gap(x, swarms[i].id)
    ensures forall i | 0 <= i < |swarms| :: Gap(swarms[left].id, x) <= Gap(swarms[i].id, x) || swarms[i].id == x
  {
    forall i | 0 <= i < |swarms|
      ensures Gap(x, swarms[right].id) <= Gap(x, swarms[i].id)
      ensures Gap(swarms[left].id, x) <= Gap(swarms[i].id, x) || swarms[i].id == x
    {
      assert i == right || i < right || right < i;
      assert i == left || i < left || left < i;
    }
  }

  lemma NearerBoundaryIsNearest(swarms: seq<Swarm>, x: int, b: nat, right: nat, left: nat)
    requires StrictlyById(swarms) && InSpace(swarms) && 0 <= x < SPACE && |swarms| >= 2 && b <= |swarms|
    requires (forall i | 0 <= i < b :: swarms[i].id < x) && (forall i | b <= i < |swarms| :: x <= swarms[i].id)
    requires right == (if b == |swarms| then 0 else b) && left == (if right == 0 then |swarms| - 1 else right - 1)
    ensures IsNearest(if Gap(x, swarms[right].id) < Gap(swarms[left].id, x) then swarms[right] else swarms[left], swarms, x)
  {
    Boundaries(swarms, x, b, right, left);
    assert left != right;
    var r, l := swarms[right].id, swarms[left].id;
    forall i | 0 <= i < |swarms| && swarms[i].id == x ensures Gap(x, r) == 0 { }
  }

  /** The lookup among at least two swarms. */
  method NearestSwarm(swarms: seq<Swarm>, id: int) returns (swarm: Swarm)
    requires StrictlyById(swarms) && InSpace(swarms) && 0 <= id < SPACE && |swarms| >= 2
    ensures IsNearest(swarm, swarms, id)
  {
    var b := LowerBound(swarms, id);
    var right := if b == |swarms| then 0 else b;
    var left := if right == 0 then |swarms| - 1 else right - 1;
    NearerBoundaryIsNearest(swarms, id, b, right, left);
    var dright, dleft := Gap(id, swarms[right].id), Gap(swarms[left].id, id);
    swarm := if dright < dleft then swarms[right] else swarms[left];
  }

  // ----- the lookup with its caches ------------------------------------------------------------------

  class SwarmTable {
    const toSpace: string -> int          // pubkey (hex) to swarm space
    var snodeCache: seq<Node>
    var allSwarms: seq<Swarm>
    var swarmCache: map<string, Swarm>
    ghost var generatedFrom: seq<Node>    // the nodes the swarms were generated from

    ghost predicate Valid()
      reads this
    {
      && (forall pk :: 0 <= toSpace(pk) < SPACE)
      && IsPartition(allSwarms, generatedFrom) && InSpace(allSwarms)
      && (forall pk | pk in swarmCache && swarmCache[pk].nodes != [] ::
            IsNearest(swarmCache[pk], allSwarms, toSpace(pk)))
    }

    constructor (toSpace: string -> int, loaded: seq<Node>)
      requires forall pk :: 0 <= toSpace(pk) < SPACE
      requires forall i | 0 <= i < |loaded| :: WellTyped(loaded[i])
      ensures Valid() && snodeCache == generatedFrom == loaded && swarmCache == map[]
    {
      this.toSpace := toSpace;
      var swarms := GenerateSwarms(loaded);
      snodeCache, allSwarms, swarmCache, generatedFrom := loaded, swarms, map[], loaded;
      new;
      PartitionInSpace(allSwarms, loaded);
    }

    /** A finished refresh replaces the nodes, regenerates the swarms and empties the cache. */
    method RefreshComplete(nodes: seq<Node>)
      requires Valid() && forall i | 0 <= i < |nodes| :: WellTyped(nodes[i])
      modifies this
      ensures Valid() && snodeCache == generatedFrom == nodes && swarmCache == map[]
      ensures IsPartition(allSwarms, nodes)
    {
      snodeCache := nodes;
      swarmCache := map[];
      allSwarms := GenerateSwarms(nodes);
      generatedFrom := nodes;
      PartitionInSpace(allSwarms, nodes);
    }

    /** Clearing the node cache leaves the swarms as they are. */
    method ClearCache()
      requires Valid()
      modifies this`snodeCache
      ensures Valid() && snodeCache == []
    {
      snodeCache := [];
    }

    /** A lookup leaves an empty entry behind, which does not count. */
    predicate Cached(pk: string)
      reads this
    {
      pk in swarmCache && swarmCache[pk].nodes != []
    }

    /**
     The swarm of a pubkey: cached or computed, it is the nearest of the current swarms.
     Nothing is answered yet only when it is not cached and there are no nodes or swarms
     to look in.
     */
    method GetSwarm(pk: string) returns (r: Option<Swarm>)
      requires Valid()
      modifies this`swarmCache
      ensures Valid()
      ensures r.None? <==> !old(Cached(pk)) && (snodeCache == [] || allSwarms == [])
      ensures old(Cached(pk)) ==> r == Get(old(swarmCache), pk)
      ensures r.Some? ==> IsNearest(r.value, allSwarms, toSpace(pk)) && r.value.nodes != []
      ensures r.Some? && |allSwarms| >= 2 ==> Get(swarmCache, pk) == r
      ensures !old(Cached(pk)) && |allSwarms| < 2 ==> !Cached(pk)
      ensures forall k | k != pk :: Get(swarmCache, k) == old(Get(swarmCache, k))
    {
      if pk !in swarmCache { swarmCache := swarmCache[pk := Swarm(0, [])]; }
      if swarmCache[pk].nodes != [] {
        return Some(swarmCache[pk]);
      }
      if snodeCache == [] || allSwarms == [] { return None; }
      if |allSwarms| == 1 {
        return Some(allSwarms[0]);
      }
      var swarm := NearestSwarm(allSwarms, toSpace(pk));
      swarmCache := swarmCache[pk := swarm];
      r := Some(swarm);
    }
  }

  lemma PartitionInSpace(swarms: seq<Swarm>, nodes: seq<Node>)
    requires IsPartition(swarms, nodes) && forall i | 0 <= i < |nodes| :: WellTyped(nodes[i])
    ensures InSpace(swarms)
  {
    forall i | 0 <= i < |swarms| ensures 0 <= swarms[i].id < SPACE {
      var n := swarms[i].nodes[0];
      MembersCount(nodes, swarms[i].id, n);
      assert n in swarms[i].nodes;
      assert multiset(Members(nodes, swarms[i].id))[n] > 0;
      assert n in multiset(nodes);
    }
  }
}
