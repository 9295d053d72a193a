/**
 Choosing a path for a request (src/session_network.cpp:101-138, 514-521, 1533-1597).

 Which connections are alive, how busy they are, and how the candidates are shuffled are
 given by the environment.
 */
module PathChoice {
  import opened Options
  import opened NodeDisk
  import opened Requests
  import opened Paths

  // ----- the candidates --------------------------------------------------------------------------------

  predicate IsValid(p: Path, alive: nat -> bool) {
    p.nodes != [] && alive(p.conn.ref)
  }

  function ValidPaths(ps: seq<Path>, alive: nat -> bool): (r: seq<Path>)
    ensures forall p :: p in r <==> p in ps && IsValid(p, alive)
  {
    if ps == [] then [] else
      var n := |ps| - 1;
      ValidPaths(ps[..n], alive) + (if IsValid(ps[n], alive) then [ps[n]] else [])
  }

  /** The paths that do not contain the target; whole nodes are compared, not IPs. */
  function Excluding(ps: seq<Path>, target: Node): (r: seq<Path>)
    ensures forall p :: p in r <==> p in ps && target !in p.nodes
  {
    if ps == [] then [] else
      var n := |ps| - 1;
      Excluding(ps[..n], target) + (if target in ps[n].nodes then [] else [ps[n]])
  }

  /** What is left to choose from; a network with a single path falls back on paths with the target. */
  function Candidates(ps: seq<Path>, alive: nat -> bool, dest: Dest, single: bool): seq<Path> {
    var possible := ValidPaths(ps, alive);
    if dest.ToServer? || (single && Excluding(possible, dest.node) == []) then possible
    else Excluding(possible, dest.node)
  }

  /** The candidates are the living paths, in order, without those that have the target on them. */
  lemma CandidatesAre(ps: seq<Path>, alive: nat -> bool, dest: Dest, single: bool, p: Path)
    ensures p in Candidates(ps, alive, dest, single) <==>
            && p in ps && p.nodes != [] && alive(p.conn.ref)
            && (dest.ToServer? || dest.node !in p.nodes
                || (single && forall q | q in ps && q.nodes != [] && alive(q.conn.ref) :: dest.node in q.nodes))
  {
    if dest.ToNode? {
      var possible := ValidPaths(ps, alive);
      EmptyIffNone(possible, dest.node);
    }
  }

  lemma {:induction false} ValidInOrder(a: seq<Path>, b: seq<Path>, alive: nat -> bool)
    ensures ValidPaths(a + b, alive) == ValidPaths(a, alive) + ValidPaths(b, alive)
    decreases |b|
  {
    if b == [] {
      assert a + b == a;
    } else {
      assert (a + b)[..|a + b| - 1] == a + b[..|b| - 1];
      ValidInOrder(a, b[..|b| - 1], alive);
    }
  }

  lemma {:induction false} ExcludingInOrder(a: seq<Path>, b: seq<Path>, target: Node)
    ensures Excluding(a + b, target) == Excluding(a, target) + Excluding(b, target)
    decreases |b|
  {
    if b == [] {
      assert a + b == a;
    } else {
      assert (a + b)[..|a + b| - 1] == a + b[..|b| - 1];
      ExcludingInOrder(a, b[..|b| - 1], target);
    }
  }

  // ----- the choice ---------------------------------------------------------------------------------------

  function MinPathCount(single: bool): nat {
    if single then 1 else 2
  }

  predicate LeastBusy(p: Path, ps: seq<Path>, load: nat -> nat) {
    p in ps && forall q | q in ps :: load(p.conn.ref) <= load(q.conn.ref)
  }

  /**
   What may be returned: any candidate for a standard request; for the others one of the least
   busy candidates, unless a new path should rather be built.
   */
  ghost predicate MayReturn(r: Option<Path>, ps: seq<Path>, alive: nat -> bool, load: nat -> nat, info: Info, single: bool) {
    var cs := Candidates(ps, alive, info.dest, single);
    match r
    case Some(p) =>
      && p in cs
      && (info.pathType != Standard ==>
            LeastBusy(p, cs, load) && (|ps| >= MinPathCount(single) || load(p.conn.ref) == 0))
    case None =>
      cs == [] || (info.pathType != Standard && |ps| < MinPathCount(single) && forall q | q in cs :: load(q.conn.ref) > 0)
  }

  /** `shuffle` is the random permutation of the candidates. */
  method FindValidPath(ps: seq<Path>, alive: nat -> bool, load: nat -> nat, info: Info, single: bool, shuffle: seq<Path> -> seq<Path>)
    returns (r: Option<Path>)
    requires forall s: seq<Path> :: multiset(shuffle(s)) == multiset(s)
    ensures MayReturn(r, ps, alive, load, info, single)
    ensures var cs := shuffle(Candidates(ps, alive, info.dest, single));
            info.pathType == Standard ==> r == if cs == [] then None else Some(cs[0])
  {
    var possible := KeepCandidates(ps, alive, info.dest, single);
    var cs := shuffle(possible);
    SameMembers(cs, possible);
    r := Select(cs, |ps|, load, info.pathType, single);
    LoadKnown(cs, possible, load);
  }

  method KeepCandidates(ps: seq<Path>, alive: nat -> bool, dest: Dest, single: bool) returns (possible: seq<Path>)
    ensures possible == Candidates(ps, alive, dest, single)
  {
    possible := KeepValid(ps, alive);
    if dest.ToNode? {
      var excluded := KeepExcluding(possible, dest.node);
      if !(single && excluded == []) { possible := excluded; }
    }
  }

  /** The choice among the shuffled candidates, when there are `count` paths of the type. */
  method Select(cs: seq<Path>, count: nat, load: nat -> nat, t: PathType, single: bool) returns (r: Option<Path>)
    ensures r.Some? ==> r.value in cs && (t != Standard ==> LeastBusy(r.value, cs, load) && (count >= MinPathCount(single) || load(r.value.conn.ref) == 0))
    ensures r.None? ==> cs == [] || (t != Standard && count < MinPathCount(single) && forall q | q in cs :: load(q.conn.ref) > 0)
    ensures t == Standard ==> r == if cs == [] then None else Some(cs[0])
  {
    if cs == [] { return None; }
    if t == Standard { return Some(cs[0]); }
    var best := FirstLeastBusy(cs, load);
    if count >= MinPathCount(single) || load(best.conn.ref) == 0 { return Some(best); }
    r := None;
  }

  lemma LoadKnown(a: seq<Path>, b: seq<Path>, load: nat -> nat)
    requires forall p :: p in a <==> p in b
    ensures forall p :: LeastBusy(p, a, load) <==> LeastBusy(p, b, load)
    ensures (forall q | q in a :: load(q.conn.ref) > 0) <==> (forall q | q in b :: load(q.conn.ref) > 0)
  {
  }

  lemma SameMembers(a: seq<Path>, b: seq<Path>)
    requires multiset(a) == multiset(b)
    ensures (a == [] <==> b == []) && forall p :: p in a <==> p in b
  {
    assert forall p :: p in a <==> p in multiset(a);
    assert forall p :: p in b <==> p in multiset(b);
    assert |multiset(a)| == |a| && |multiset(b)| == |b|;
  }

  method KeepValid(ps: seq<Path>, alive: nat -> bool) returns (r: seq<Path>)
    ensures r == ValidPaths(ps, alive)
  {
    r := [];
    for i := 0 to |ps|
      invariant r == ValidPaths(ps[..i], alive)
    {
      assert ps[..i + 1][..i] == ps[..i];
      if IsValid(ps[i], alive) { r := r + [ps[i]]; }
    }
    assert ps[..|ps|] == ps;
  }

  method KeepExcluding(ps: seq<Path>, target: Node) returns (r: seq<Path>)
    ensures r == Excluding(ps, target)
  {
    r := [];
    for i := 0 to |ps|
      invariant r == Excluding(ps[..i], target)
    {
      assert ps[..i + 1][..i] == ps[..i];
      var found := ContainsNode(ps[i], target);
      if !found { r := r + [ps[i]]; }
    }
    assert ps[..|ps|] == ps;
  }

  method ContainsNode(p: Path, node: Node) returns (found: bool)
    ensures found <==> node in p.nodes
  {
    for i := 0 to |p.nodes|
      invariant node !in p.nodes[..i]
    {
      if p.nodes[i] == node { return true; }
    }
    found := false;
  }

  /** The front after sorting by load. */
  method FirstLeastBusy(ps: seq<Path>, load: nat -> nat) returns (p: Path)
    requires ps != []
    ensures LeastBusy(p, ps, load)
  {
    p := ps[0];
    for i := 1 to |ps|
      invariant p in ps && forall k | 0 <= k < i :: load(p.conn.ref) <= load(ps[k].conn.ref)
    {
      if load(ps[i].conn.ref) < load(p.conn.ref) { p := ps[i]; }
    }
  }

  /**
   Uploads and downloads rather wait for a second path than share a busy one, unless the network
   keeps to a single path; standard requests never wait while there is a candidate.
   */
  lemma WaitsIff(r: Option<Path>, ps: seq<Path>, alive: nat -> bool, load: nat -> nat, info: Info, single: bool)
    requires MayReturn(r, ps, alive, load, info, single)
    ensures r.None? <==>
            var cs := Candidates(ps, alive, info.dest, single);
            cs == [] || (info.pathType != Standard && !single && |ps| < 2 && forall q | q in cs :: load(q.conn.ref) > 0)
    ensures r.Some? && info.pathType != Standard ==>
            forall q | q in Candidates(ps, alive, info.dest, single) :: load(r.value.conn.ref) <= load(q.conn.ref)
  {
    var cs := Candidates(ps, alive, info.dest, single);
    if cs != [] {
      assert cs[0] in cs;
      CandidatesAre(ps, alive, info.dest, single, cs[0]);
      assert |ps| >= 1;
    }
  }

  // ----- the destination's IP ---------------------------------------------------------------------------------

  /** The request does not leave the network next to where it goes. */
  ghost predicate AvoidsIp(p: Path, target: Node) {
    target.ip !in Ips(p.nodes)
  }

  /** A living path on the target's IP has the target itself on it. */
  ghost predicate IpMeansNode(ps: seq<Path>, alive: nat -> bool, target: Node) {
    forall p | p in ps && IsValid(p, alive) && target.ip in Ips(p.nodes) :: target in p.nodes
  }

  /** The single path mode gives in: there are living paths and all of them contain the target. */
  ghost predicate FallsBack(ps: seq<Path>, alive: nat -> bool, target: Node, single: bool) {
    && single && (exists p :: p in ps && IsValid(p, alive))
    && forall p | p in ps && IsValid(p, alive) :: target in p.nodes
  }

  /**
   Every candidate avoids the destination's IP, as the comment promises, exactly when each living
   path on that IP contains the destination as a whole node and the single path mode does not
   fall back.
   */
  lemma CandidatesAvoidIff(ps: seq<Path>, alive: nat -> bool, target: Node, single: bool)
    ensures (forall p | p in Candidates(ps, alive, ToNode(target), single) :: AvoidsIp(p, target))
            <==> IpMeansNode(ps, alive, target) && !FallsBack(ps, alive, target, single)
  {
    var possible := ValidPaths(ps, alive);
    var excluded := Excluding(possible, target);
    EmptyIffNone(possible, target);
    if single && excluded == [] {
      forall p | p in possible ensures !AvoidsIp(p, target) { assert target in p.nodes; }
      if possible != [] { assert possible[0] in possible; }
      assert FallsBack(ps, alive, target, single) <==> possible != [];
    } else {
      if !IpMeansNode(ps, alive, target) {
        var p :| p in ps && IsValid(p, alive) && target.ip in Ips(p.nodes) && target !in p.nodes;
        assert p in excluded && !AvoidsIp(p, target);
      }
    }
  }

  lemma EmptyIffNone(possible: seq<Path>, target: Node)
    ensures Excluding(possible, target) == [] <==> forall p | p in possible :: target in p.nodes
  {
    var excluded := Excluding(possible, target);
    if excluded != [] { assert excluded[0] in excluded; }
    if p :| p in possible && target !in p.nodes { assert p in excluded; }
  }

  /** So a standard request can be sent along any of these candidates, whatever the shuffle: */
  lemma ReturnedAvoidsIff(ps: seq<Path>, alive: nat -> bool, load: nat -> nat, info: Info, single: bool)
    requires info.dest.ToNode? && info.pathType == Standard
    ensures (forall p | MayReturn(Some(p), ps, alive, load, info, single) :: AvoidsIp(p, info.dest.node))
            <==> IpMeansNode(ps, alive, info.dest.node) && !FallsBack(ps, alive, info.dest.node, single)
  {
    CandidatesAvoidIff(ps, alive, info.dest.node, single);
    assert forall p :: MayReturn(Some(p), ps, alive, load, info, single)
                       <==> p in Candidates(ps, alive, ToNode(info.dest.node), single);
  }

  const TARGET := Node(KeyOf(9), [2, 8], 1, "10.0.0.4", 22021)

  /** A path with a node on the target's machine, listening on another port. */
  const NEIGHBOUR := Path("P", Connection(Node(KeyOf(1), [2, 8], 1, "10.0.0.1", 22021), 0),
                          [Node(KeyOf(1), [2, 8], 1, "10.0.0.1", 22021), Node(KeyOf(2), [2, 8], 1, "10.0.0.2", 22021),
                           Node(KeyOf(3), [2, 8], 1, "10.0.0.4", 22022)], 0)

  /** Such a path is a candidate, and the only one, although it ends on the destination's IP. */
  lemma SharedIpSlipsThrough(alive: nat -> bool, single: bool)
    requires alive(0)
    ensures WellTyped(TARGET) && AllTyped(NEIGHBOUR.nodes) && Usable(NEIGHBOUR)
    ensures Candidates([NEIGHBOUR], alive, ToNode(TARGET), single) == [NEIGHBOUR] && !AvoidsIp(NEIGHBOUR, TARGET)
  {
    NeighbourNodes();
    OnlyCandidate(NEIGHBOUR, TARGET, alive, single);
  }

  lemma NeighbourNodes()
    ensures WellTyped(TARGET) && AllTyped(NEIGHBOUR.nodes) && TARGET !in NEIGHBOUR.nodes && !AvoidsIp(NEIGHBOUR, TARGET)
  {
    var ns := NEIGHBOUR.nodes;
    assert ns[0].pubkey[0] == 1 && ns[1].pubkey[0] == 2 && ns[2].pubkey[0] == 3 && TARGET.pubkey[0] == 9;
    assert ns[2] in ns && ns[2].ip == TARGET.ip;
  }

  lemma OnlyCandidate(p: Path, target: Node, alive: nat -> bool, single: bool)
    requires IsValid(p, alive) && target !in p.nodes
    ensures Candidates([p], alive, ToNode(target), single) == [p]
  {
    assert [p][..0] == [];
    assert ValidPaths([p], alive) == [p] && Excluding([p], target) == [p];
  }
}
