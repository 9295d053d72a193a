/**
 The path half of the network object, as the source runs it
 (src/session_network.cpp:743-772, 952-979, 1396-1509, 2375-2422, 2667-2814).
 */
module PathTable {
  import opened Options
  import opened NodeDisk
  import opened Requests
  import opened Paths

  class Table {
    var paths: map<PathType, seq<Path>>
    var pathsPendingDrop: seq<(Path, PathType)>
    var unusedNodes: seq<Node>
    var unusedConnections: seq<Connection>
    var suspended: bool

    ghost function Abs(): PathState
      reads this
    {
      PathState(paths, pathsPendingDrop, unusedNodes, unusedConnections, suspended)
    }

    constructor ()
      ensures Abs() == NOTHING
    {
      paths, pathsPendingDrop, unusedNodes, unusedConnections, suspended := map[], [], [], [], false;
    }

    /** Takes nodes from the back until the path is full or none is left. */
    method CollectNodes(guard: Node) returns (pathNodes: seq<Node>)
      modifies this`unusedNodes
      ensures (pathNodes, unusedNodes) == Grow([guard], old(unusedNodes))
      ensures |pathNodes| < PATH_SIZE ==> unusedNodes == []
    {
      pathNodes := [guard];
      while |pathNodes| < PATH_SIZE
        invariant |pathNodes| <= PATH_SIZE
        invariant Grow(pathNodes, unusedNodes) == Grow([guard], old(unusedNodes))
        decreases |unusedNodes|
      {
        if unusedNodes == [] {
          return;
        }
        var node := unusedNodes[|unusedNodes| - 1];
        unusedNodes := unusedNodes[..|unusedNodes| - 1];
        var shared := HasIp(pathNodes, node.ip);
        if !shared {
          pathNodes := pathNodes + [node];
        }
      }
    }

    /** Builds a path; `refill` is what the node cache offers. */
    method BuildPath(id: string, t: PathType, refill: seq<Node>) returns (outcome: Outcome)
      modifies this
      ensures outcome == BuildOutcome(old(Abs()), refill)
      ensures Abs() == Build(old(Abs()), id, t, refill)
    {
      if suspended { return Suspended; }
      if unusedConnections == [] { return NoConnection; }
      if |unusedNodes| < PATH_SIZE {
        unusedNodes := refill;
      }
      if |unusedNodes| < PATH_SIZE { return NoNodes; }
      var conn := unusedConnections[0];
      unusedConnections := unusedConnections[1..];
      var pathNodes := CollectNodes(conn.node);
      if |pathNodes| < PATH_SIZE {
        unusedConnections := [conn] + unusedConnections;
        return OutOfNodes;
      }
      StorePath(t, Path(id, conn, pathNodes, 0));
      return Built;
    }

    method StorePath(t: PathType, path: Path)
      modifies this
      ensures Abs() == WithPath(old(Abs()), t, path)
    {
      paths := paths[t := (if t in paths then paths[t] else []) + [path]];
      unusedNodes := DropShared(unusedNodes, path.nodes);
    }

    method ClearEmptyPendingPathDrops(busy: nat -> bool)
      modifies this`pathsPendingDrop
      ensures pathsPendingDrop == StillBusy(old(pathsPendingDrop), busy)
    {
      var all, kept := pathsPendingDrop, [];
      for i := 0 to |all|
        invariant kept == StillBusy(all[..i], busy)
      {
        assert all[..i + 1][..i] == all[..i];
        if busy(all[i].0.conn.ref) {
          kept := kept + [all[i]];
        }
      }
      assert all[..|all|] == all;
      pathsPendingDrop := kept;
    }

    method DropPathWhenEmpty(t: PathType, path: Path, busy: nat -> bool)
      modifies this
      ensures Abs() == Drop(old(Abs()), t, path, busy)
    {
      pathsPendingDrop := pathsPendingDrop + [(path, t)];
      var kept := RemoveEqual(if t in paths then paths[t] else [], path.nodes);
      paths := paths[t := kept];
      ClearEmptyPendingPathDrops(busy);
    }

    /** A copy of the path with its bad node replaced, or its failures counted. */
    method UpdatePath(path: Path, bad: Option<seq<int>>, connValid: bool) returns (updated: Path)
      modifies this`unusedNodes
      ensures updated == Updated(path, bad, connValid, old(unusedNodes))
      ensures unusedNodes == UnusedAfter(path, bad, old(unusedNodes))
    {
      updated := path;
      var foundInvalid := false;
      if bad.Some? {
        var n := FindKey(path.nodes, bad.value);
        if n < |path.nodes| {
          foundInvalid := true;
          if n == 0 || unusedNodes == [] {
            updated := updated.(failures := PATH_FAILURE_THRESHOLD);
          } else {
            updated := updated.(nodes := updated.nodes[n := unusedNodes[|unusedNodes| - 1]]);
            unusedNodes := unusedNodes[..|unusedNodes| - 1];
          }
        }
      }
      if !foundInvalid || !connValid {
        updated := updated.(failures := updated.failures + 1);
      }
    }

    /** The end of the error handler; `bad` is the key of the node reported missing. */
    method HandlePathFailure(t: PathType, guard: Node, bad: Option<seq<int>>, connValid: bool, busy: nat -> bool)
      modifies this
      ensures Abs() == Strike(old(Abs()), t, guard, bad, connValid, busy)
    {
      var ps := if t in paths then paths[t] else [];
      var k := FindGuard(ps, guard);
      if k < |ps| {
        FailActive(t, k, bad, connValid, busy);
      } else {
        var j := FindPendingGuard(guard);
        if j < |pathsPendingDrop| {
          var _ := UpdatePath(pathsPendingDrop[j].0, bad, connValid);
        }
      }
    }

    method FailActive(t: PathType, k: nat, bad: Option<seq<int>>, connValid: bool, busy: nat -> bool)
      requires k < |Active(Abs(), t)|
      requires forall i | 0 <= i < k :: Active(Abs(), t)[i].nodes != Active(Abs(), t)[k].nodes
      modifies this
      ensures Abs() == StrikeActive(old(Abs()), t, k, bad, connValid, busy)
    {
      var ps := paths[t];
      var updated := UpdatePath(ps[k], bad, connValid);
      if updated.failures >= PATH_FAILURE_THRESHOLD {
        DropPathWhenEmpty(t, ps[k], busy);
      } else {
        var replaced := ReplaceFrom(ps, k, updated);
        paths := paths[t := replaced];
      }
    }

    method FindPendingGuard(guard: Node) returns (j: nat)
      ensures j == GuardIndex(PendingPaths(Abs()), guard)
    {
      ghost var all := PendingPaths(Abs());
      j := 0;
      while j < |pathsPendingDrop| && !(pathsPendingDrop[j].0.nodes != [] && pathsPendingDrop[j].0.nodes[0] == guard)
        invariant j <= |all| && GuardIndex(all, guard) == j + GuardIndex(all[j..], guard)
      {
        assert all[j..][1..] == all[j + 1..];
        j := j + 1;
      }
    }

    method DropUserOf(t: PathType, c: Connection, busy: nat -> bool)
      modifies this
      ensures Abs() == DropUser(old(Abs()), t, c, busy)
    {
      var ps := if t in paths then paths[t] else [];
      var k := FindUser(ps, c);
      if k < |ps| {
        DropPathWhenEmpty(t, ps[k], busy);
      }
    }

    /** `order` is how the unordered map of paths happens to be walked. */
    method ConnectionClosed(c: Connection, order: TypeOrder, busy: nat -> bool)
      modifies this
      ensures Abs() == Closed(old(Abs()), c, order, busy)
    {
      unusedConnections := RemoveConnection(unusedConnections, c);
      DropAllUsers(order, c, busy);
      ClearEmptyPendingPathDrops(busy);
    }

    method DropAllUsers(order: seq<PathType>, c: Connection, busy: nat -> bool)
      modifies this
      ensures Abs() == DropUsers(old(Abs()), order, c, busy)
    {
      for i := 0 to |order|
        invariant Abs() == DropUsers(old(Abs()), order[..i], c, busy)
      {
        assert order[..i + 1][..i] == order[..i];
        DropUserOf(order[i], c, busy);
      }
      assert order[..|order|] == order;
    }

    /** The end of a successful response. */
    method OnRequestDone(busy: nat -> bool)
      modifies this
      ensures Abs() == PathStep(old(Abs()), RequestDone(busy))
    {
      ClearEmptyPendingPathDrops(busy);
    }

    method CloseConnections()
      modifies this
      ensures Abs() == PathStep(old(Abs()), CloseEverything)
    {
      paths, pathsPendingDrop, unusedConnections := map[], [], [];
    }
  }

  method RemoveConnection(all: seq<Connection>, c: Connection) returns (kept: seq<Connection>)
    ensures kept == OtherConns(all, c)
  {
    kept := [];
    for i := 0 to |all|
      invariant kept == OtherConns(all[..i], c)
    {
      assert all[..i + 1][..i] == all[..i];
      if all[i] != c {
        kept := kept + [all[i]];
      }
    }
    assert all[..|all|] == all;
  }

  method RemoveEqual(all: seq<Path>, nodes: seq<Node>) returns (kept: seq<Path>)
    ensures kept == Except(all, nodes)
  {
    kept := [];
    for i := 0 to |all|
      invariant kept == Except(all[..i], nodes)
    {
      assert all[..i + 1][..i] == all[..i];
      if all[i].nodes != nodes {
        kept := kept + [all[i]];
      }
    }
    assert all[..|all|] == all;
  }

  method HasIp(nodes: seq<Node>, ip: string) returns (found: bool)
    ensures found <==> ip in Ips(nodes)
  {
    found := false;
    for i := 0 to |nodes|
      invariant found <==> exists k | 0 <= k < i :: nodes[k].ip == ip
    {
      if nodes[i].ip == ip { found := true; }
    }
  }

  method DropShared(unused: seq<Node>, pathNodes: seq<Node>) returns (kept: seq<Node>)
    ensures kept == Unshared(unused, Ips(pathNodes))
  {
    kept := [];
    for i := 0 to |unused|
      invariant kept == Unshared(unused[..i], Ips(pathNodes))
    {
      assert unused[..i + 1][..i] == unused[..i];
      var shared := HasIp(pathNodes, unused[i].ip);
      if !shared { kept := kept + [unused[i]]; }
    }
    assert unused[..|unused|] == unused;
  }

  method FindGuard(ps: seq<Path>, guard: Node) returns (k: nat)
    ensures k == GuardIndex(ps, guard)
  {
    k := 0;
    while k < |ps| && !(ps[k].nodes != [] && ps[k].nodes[0] == guard)
      invariant k <= |ps| && GuardIndex(ps, guard) == k + GuardIndex(ps[k..], guard)
    {
      assert ps[k..][1..] == ps[k + 1..];
      k := k + 1;
    }
  }

  method FindUser(ps: seq<Path>, c: Connection) returns (k: nat)
    ensures k == UseIndex(ps, c)
  {
    k := 0;
    while k < |ps| && !UsesConn(ps[k], c)
      invariant k <= |ps| && UseIndex(ps, c) == k + UseIndex(ps[k..], c)
    {
      assert ps[k..][1..] == ps[k + 1..];
      k := k + 1;
    }
  }

  method FindKey(nodes: seq<Node>, key: seq<int>) returns (k: nat)
    ensures k == KeyIndex(nodes, key)
  {
    k := 0;
    while k < |nodes| && nodes[k].pubkey != key
      invariant k <= |nodes| && KeyIndex(nodes, key) == k + KeyIndex(nodes[k..], key)
    {
      assert nodes[k..][1..] == nodes[k + 1..];
      k := k + 1;
    }
  }

  /** `std::replace` with the element at `k` itself as the value to look for. */
  method ReplaceFrom(ps: seq<Path>, k: nat, p: Path) returns (r: seq<Path>)
    requires k < |ps| && forall i | 0 <= i < k :: ps[i].nodes != ps[k].nodes
    ensures r == Overwrite(ps, k, p)
  {
    r := ps;
    for i := 0 to |ps|
      invariant |r| == |ps|
      invariant forall j | i <= j < |ps| :: r[j] == ps[j]
      invariant forall j | 0 <= j < i :: r[j] == Overwrite(ps, k, p)[j]
      invariant r[k] == if i <= k then ps[k] else p
    {
      if r[i].nodes == r[k].nodes {
        r := r[i := p];
      }
    }
  }
}
