/**
 Onion paths: building, failing, repairing, dropping
 (src/session_network.cpp:743-772, 952-979, 1396-1509, 2375-2422, 2667-2814;
 include/session/session_network.hpp:86-134).

 What the connections and the node cache do is part of the events.
 */
module Paths {
  import opened Options
  import opened Ordering
  import opened NodeDisk
  import opened Requests

  const PATH_SIZE := 3
  const PATH_FAILURE_THRESHOLD := 3

  datatype Connection = Connection(node: Node, ref: nat)

  datatype Path = Path(id: string, conn: Connection, nodes: seq<Node>, failures: nat)

  datatype PathState = PathState(
    active: map<PathType, seq<Path>>, pending: seq<(Path, PathType)>,
    unusedNodes: seq<Node>, unusedConns: seq<Connection>, suspended: bool)

  const NOTHING := PathState(map[], [], [], [], false)

  function Active(s: PathState, t: PathType): seq<Path> {
    if t in s.active then s.active[t] else []
  }

  // ----- choosing the nodes of a path ---------------------------------------------------------------

  function Ips(nodes: seq<Node>): (r: set<string>)
    ensures forall ip :: ip in r <==> exists n | n in nodes :: n.ip == ip
  {
    set n | n in nodes :: n.ip
  }

  ghost predicate DistinctIps(nodes: seq<Node>) {
    forall i, j | 0 <= i < j < |nodes| :: nodes[i].ip != nodes[j].ip
  }

  /** Nodes taken from the back of `unused` until the path is full; what is left of both. */
  function Grow(nodes: seq<Node>, unused: seq<Node>): (seq<Node>, seq<Node>)
    decreases |unused|
  {
    if |nodes| >= PATH_SIZE || unused == [] then (nodes, unused)
    else
      var n := unused[|unused| - 1];
      Grow(if n.ip in Ips(nodes) then nodes else nodes + [n], unused[..|unused| - 1])
  }

  lemma IpsAppend(nodes: seq<Node>, n: Node)
    ensures Ips(nodes + [n]) == Ips(nodes) + {n.ip}
  {
    assert forall m | m in nodes :: m in nodes + [n];
    assert n in nodes + [n];
  }

  lemma {:induction false} IpsConcat(a: seq<Node>, b: seq<Node>)
    ensures Ips(a + b) == Ips(a) + Ips(b)
  {
    assert forall n :: n in a + b <==> n in a || n in b;
  }

  lemma {:induction false} DistinctIpsSize(nodes: seq<Node>)
    requires DistinctIps(nodes)
    ensures |Ips(nodes)| == |nodes|
  {
    if nodes == [] {
      assert Ips(nodes) == {};
    } else {
      var front, last := nodes[..|nodes| - 1], nodes[|nodes| - 1];
      DistinctIpsSize(front);
      assert nodes == front + [last];
      IpsAppend(front, last);
      assert last.ip !in Ips(front);
    }
  }

  /** The nodes added come from the back of `unused` and bring no second node of an IP. */
  lemma {:induction false} GrowChooses(nodes: seq<Node>, unused: seq<Node>)
    requires DistinctIps(nodes) && 0 < |nodes| <= PATH_SIZE
    ensures var (full, rest) := Grow(nodes, unused);
      && |nodes| <= |full| <= PATH_SIZE && full[..|nodes|] == nodes && DistinctIps(full)
      && |rest| <= |unused| && rest == unused[..|rest|]
      && (forall n | n in full :: n in nodes || n in unused)
      && (|full| < PATH_SIZE ==> rest == [])
    decreases |unused|
  {
    if |nodes| < PATH_SIZE && unused != [] {
      var n, before := unused[|unused| - 1], unused[..|unused| - 1];
      var more := if n.ip in Ips(nodes) then nodes else nodes + [n];
      GrowStep(nodes, n);
      GrowChooses(more, before);
      var (full, rest) := Grow(nodes, unused);
      GrowOne(nodes, more, full, n);
      assert rest == before[..|rest|] == unused[..|rest|];
      assert n in unused && forall m | m in before :: m in unused;
    }
  }

  /** A node passed over shares its IP with the path. */
  lemma {:induction false} GrowLeaves(nodes: seq<Node>, unused: seq<Node>, m: Node)
    requires DistinctIps(nodes) && 0 < |nodes| <= PATH_SIZE && m in unused
    ensures var (full, rest) := Grow(nodes, unused); m in rest || m.ip in Ips(full)
    decreases |unused|
  {
    if |nodes| < PATH_SIZE {
      var n, before := unused[|unused| - 1], unused[..|unused| - 1];
      var more := if n.ip in Ips(nodes) then nodes else nodes + [n];
      GrowStep(nodes, n);
      assert unused == before + [n];
      if m in before {
        GrowLeaves(more, before, m);
      } else {
        GrowChooses(more, before);
        GrowOne(nodes, more, Grow(nodes, unused).0, n);
      }
    }
  }

  lemma GrowStep(nodes: seq<Node>, n: Node)
    requires DistinctIps(nodes)
    ensures n.ip !in Ips(nodes) ==> DistinctIps(nodes + [n])
  {
    if n.ip !in Ips(nodes) {
      assert forall i | 0 <= i < |nodes| :: nodes[i] in nodes && nodes[i].ip != n.ip;
    }
  }

  lemma GrowOne(nodes: seq<Node>, more: seq<Node>, full: seq<Node>, n: Node)
    requires |more| <= |full| && full[..|more|] == more
    requires more == if n.ip in Ips(nodes) then nodes else nodes + [n]
    ensures |nodes| <= |full| && full[..|nodes|] == nodes && n.ip in Ips(full)
  {
    assert more[..|nodes|] == nodes && full[..|more|][..|nodes|] == full[..|nodes|];
    IpsAppend(nodes, n);
    assert n.ip in Ips(more);
    var m :| m in more && m.ip == n.ip;
    assert m in full[..|more|] && m in full;
  }

  /** A path can be built exactly when the guard and the unused nodes have three IPs between them. */
  lemma FullIffThreeIps(guard: Node, unused: seq<Node>)
    ensures |Grow([guard], unused).0| == PATH_SIZE <==> |Ips([guard] + unused)| >= PATH_SIZE
  {
    GrowChooses([guard], unused);
    forall m | m in unused ensures var (f, r) := Grow([guard], unused); m in r || m.ip in Ips(f) { GrowLeaves([guard], unused, m); }
    var (full, rest) := Grow([guard], unused);
    DistinctIpsSize(full);
    IpsConcat([guard], unused);
    assert full[..1][0] == guard;
    forall ip | ip in Ips(full) ensures ip in Ips([guard] + unused) {
      var n :| n in full && n.ip == ip;
      assert n in [guard] + unused;
    }
    SubsetSize(Ips(full), Ips([guard] + unused));
    if |full| < PATH_SIZE {
      forall ip | ip in Ips([guard] + unused) ensures ip in Ips(full) {
        var n :| n in [guard] + unused && n.ip == ip;
        assert n in unused || n == guard;
        assert guard in full;
      }
      SubsetSize(Ips([guard] + unused), Ips(full));
    }
  }

  lemma {:induction false} SubsetSize<T>(a: set<T>, b: set<T>)
    requires a <= b
    ensures |a| <= |b|
  {
    if a != {} {
      var x :| x in a;
      SubsetSize(a - {x}, b - {x});
    }
  }

  // ----- building ---------------------------------------------------------------------------------------

  datatype Outcome = Suspended | NoConnection | NoNodes | OutOfNodes | Built

  function Unshared(unused: seq<Node>, ips: set<string>): (r: seq<Node>)
    ensures forall n :: n in r <==> n in unused && n.ip !in ips
  {
    if unused == [] then [] else
      Unshared(unused[..|unused| - 1], ips) + (if unused[|unused| - 1].ip in ips then [] else [unused[|unused| - 1]])
  }

  /** `refill` is what the node cache would offer. */
  function Refilled(s: PathState, refill: seq<Node>): seq<Node> {
    if |s.unusedNodes| < PATH_SIZE then refill else s.unusedNodes
  }

  function BuildOutcome(s: PathState, refill: seq<Node>): Outcome {
    if s.suspended then Suspended
    else if s.unusedConns == [] then NoConnection
    else if |Refilled(s, refill)| < PATH_SIZE then NoNodes
    else if |Grow([s.unusedConns[0].node], Refilled(s, refill)).0| < PATH_SIZE then OutOfNodes
    else Built
  }

  function Build(s: PathState, id: string, t: PathType, refill: seq<Node>): PathState {
    match BuildOutcome(s, refill)
    case Suspended => s
    case NoConnection => s
    case NoNodes => s.(unusedNodes := Refilled(s, refill))
    case OutOfNodes => s.(unusedNodes := [])
    case Built =>
      var conn := s.unusedConns[0];
      var (nodes, rest) := Grow([conn.node], Refilled(s, refill));
      WithPath(s.(unusedNodes := rest, unusedConns := s.unusedConns[1..]), t, Path(id, conn, nodes, 0))
  }

  /** A new path is stored, and the unused nodes that share an IP with it are forgotten. */
  function WithPath(s: PathState, t: PathType, p: Path): PathState {
    s.(active := s.active[t := Active(s, t) + [p]], unusedNodes := Unshared(s.unusedNodes, Ips(p.nodes)))
  }

  /** A new path from `guard` and `unused`, and what is left of `unused`. */
  ghost predicate Chosen(guard: Node, unused: seq<Node>, nodes: seq<Node>, left: seq<Node>) {
    && |nodes| == PATH_SIZE && nodes[0] == guard && DistinctIps(nodes)
    && (forall n | n in nodes :: n == guard || n in unused)
    && (forall n :: n in left <==> n in unused && n.ip !in Ips(nodes))
  }

  /** `o` is `s` with one new path of type `t` made of unused nodes. */
  ghost predicate BuiltFrom(s: PathState, t: PathType, unused: seq<Node>, o: PathState) {
    && |Active(o, t)| == |Active(s, t)| + 1 && Active(o, t)[..|Active(s, t)|] == Active(s, t)
    && (forall q | q != t :: Active(o, q) == Active(s, q)) && o.pending == s.pending
    && s.unusedConns != [] && o.unusedConns == s.unusedConns[1..]
    && var p := Active(o, t)[|Active(s, t)|];
    && p.conn == s.unusedConns[0] && p.failures == 0
    && Chosen(p.conn.node, unused, p.nodes, o.unusedNodes)
  }

  lemma GrowChosen(guard: Node, unused: seq<Node>)
    requires |Grow([guard], unused).0| >= PATH_SIZE
    ensures var (full, rest) := Grow([guard], unused); Chosen(guard, unused, full, Unshared(rest, Ips(full)))
  {
    GrowChooses([guard], unused);
    forall m | m in unused ensures var (f, r) := Grow([guard], unused); m in r || m.ip in Ips(f) { GrowLeaves([guard], unused, m); }
    var (full, rest) := Grow([guard], unused);
    assert full[..1][0] == guard;
    assert forall n | n in [guard] :: n == guard;
    assert forall n | n in rest :: n in unused;
  }

  lemma BuiltPromises(s: PathState, id: string, t: PathType, refill: seq<Node>)
    requires BuildOutcome(s, refill) == Built
    ensures BuiltFrom(s, t, Refilled(s, refill), Build(s, id, t, refill))
  {
    var conn, u := s.unusedConns[0], Refilled(s, refill);
    GrowChosen(conn.node, u);
    var (nodes, rest) := Grow([conn.node], u);
    var p := Path(id, conn, nodes, 0);
    var s1 := s.(unusedNodes := rest, unusedConns := s.unusedConns[1..]);
    assert Build(s, id, t, refill) == WithPath(s1, t, p);
    StoredFrom(s, t, u, rest, p);
  }

  lemma StoredFrom(s: PathState, t: PathType, unused: seq<Node>, rest: seq<Node>, p: Path)
    requires s.unusedConns != [] && p.conn == s.unusedConns[0] && p.failures == 0
    requires Chosen(p.conn.node, unused, p.nodes, Unshared(rest, Ips(p.nodes)))
    ensures BuiltFrom(s, t, unused, WithPath(s.(unusedNodes := rest, unusedConns := s.unusedConns[1..]), t, p))
  {
    StoredPath(s.(unusedNodes := rest, unusedConns := s.unusedConns[1..]), t, p);
  }

  lemma StoredPath(s: PathState, t: PathType, p: Path)
    ensures var o := WithPath(s, t, p);
      && Active(o, t) == Active(s, t) + [p] && (forall q | q != t :: Active(o, q) == Active(s, q))
      && Active(o, t)[..|Active(s, t)|] == Active(s, t) && Active(o, t)[|Active(s, t)|] == p
  {
  }

  /**
   What a build promises, in the terms of its caller: a new path with one node per IP, taken
   exactly when a connection is free and enough IPs are at hand; otherwise paths and
   connections stay as they were.
   */
  lemma BuildPromises(s: PathState, id: string, t: PathType, refill: seq<Node>)
    ensures var o := Build(s, id, t, refill);
      if BuildOutcome(s, refill) == Built then BuiltFrom(s, t, Refilled(s, refill), o)
      else o.active == s.active && o.pending == s.pending && o.unusedConns == s.unusedConns
    ensures BuildOutcome(s, refill) == Built
      <==> !s.suspended && s.unusedConns != [] && |Refilled(s, refill)| >= PATH_SIZE
           && |Ips([s.unusedConns[0].node] + Refilled(s, refill))| >= PATH_SIZE
  {
    if s.unusedConns != [] {
      FullIffThreeIps(s.unusedConns[0].node, Refilled(s, refill));
      GrowChooses([s.unusedConns[0].node], Refilled(s, refill));
    }
    if BuildOutcome(s, refill) == Built {
      BuiltPromises(s, id, t, refill);
    }
  }

  // ----- failing ------------------------------------------------------------------------------------------

  /** The first path with that guard. */
  function GuardIndex(ps: seq<Path>, guard: Node): (k: nat)
    ensures k <= |ps| && (k < |ps| ==> ps[k].nodes != [] && ps[k].nodes[0] == guard)
    ensures forall i | 0 <= i < k :: ps[i].nodes == [] || ps[i].nodes[0] != guard
  {
    if ps == [] || (ps[0].nodes != [] && ps[0].nodes[0] == guard) then 0 else 1 + GuardIndex(ps[1..], guard)
  }

  function KeyIndex(nodes: seq<Node>, key: seq<int>): (k: nat)
    ensures k <= |nodes| && (k < |nodes| ==> nodes[k].pubkey == key)
    ensures forall i | 0 <= i < k :: nodes[i].pubkey != key
  {
    if nodes == [] || nodes[0].pubkey == key then 0 else 1 + KeyIndex(nodes[1..], key)
  }

  function PendingPaths(s: PathState): (r: seq<Path>)
    ensures |r| == |s.pending| && forall i | 0 <= i < |r| :: r[i] == s.pending[i].0
  {
    seq(|s.pending|, i requires 0 <= i < |s.pending| => s.pending[i].0)
  }

  predicate FindsBad(p: Path, bad: Option<seq<int>>) {
    bad.Some? && KeyIndex(p.nodes, bad.value) < |p.nodes|
  }

  /** The node reported missing can be replaced: it is not the guard and a node is left. */
  predicate Replaceable(p: Path, bad: Option<seq<int>>, unused: seq<Node>) {
    FindsBad(p, bad) && KeyIndex(p.nodes, bad.value) > 0 && unused != []
  }

  function Updated(p: Path, bad: Option<seq<int>>, connValid: bool, unused: seq<Node>): Path {
    var q :=
      if Replaceable(p, bad, unused) then p.(nodes := p.nodes[KeyIndex(p.nodes, bad.value) := unused[|unused| - 1]])
      else if FindsBad(p, bad) then p.(failures := PATH_FAILURE_THRESHOLD)
      else p;
    if FindsBad(p, bad) && connValid then q else q.(failures := q.failures + 1)
  }

  function UnusedAfter(p: Path, bad: Option<seq<int>>, unused: seq<Node>): seq<Node> {
    if Replaceable(p, bad, unused) then unused[..|unused| - 1] else unused
  }

  /** Paths are the same when their nodes are. */
  function Except(ps: seq<Path>, nodes: seq<Node>): (r: seq<Path>)
    ensures forall p :: p in r <==> p in ps && p.nodes != nodes
  {
    if ps == [] then [] else Except(ps[..|ps| - 1], nodes) + (if ps[|ps| - 1].nodes == nodes then [] else [ps[|ps| - 1]])
  }

  /** The pending drops that still have requests; `busy` tells that of each connection. */
  function StillBusy(ps: seq<(Path, PathType)>, busy: nat -> bool): (r: seq<(Path, PathType)>)
    ensures forall p :: p in r <==> p in ps && busy(p.0.conn.ref)
  {
    if ps == [] then [] else
      StillBusy(ps[..|ps| - 1], busy) + (if busy(ps[|ps| - 1].0.conn.ref) then [ps[|ps| - 1]] else [])
  }

  function Drop(s: PathState, t: PathType, p: Path, busy: nat -> bool): PathState {
    s.(active := s.active[t := Except(Active(s, t), p.nodes)], pending := StillBusy(s.pending + [(p, t)], busy))
  }

  /**
   `std::replace` from position `k`, whose old value is a reference to the element at `k`:
   once that is overwritten, the later elements are compared with the new value.
   */
  function Overwrite(ps: seq<Path>, k: nat, p: Path): (r: seq<Path>)
    ensures |r| == |ps|
    ensures forall i | 0 <= i < |ps| :: r[i] == if i == k || (i > k && ps[i].nodes == p.nodes) then p else ps[i]
  {
    seq(|ps|, i requires 0 <= i < |ps| => if i == k || (i > k && ps[i].nodes == p.nodes) then p else ps[i])
  }

  /** A failure on the active path at `k`. */
  function StrikeActive(s: PathState, t: PathType, k: nat, bad: Option<seq<int>>, connValid: bool, busy: nat -> bool): PathState
    requires k < |Active(s, t)|
  {
    var path := Active(s, t)[k];
    var p := Updated(path, bad, connValid, s.unusedNodes);
    var s1 := s.(unusedNodes := UnusedAfter(path, bad, s.unusedNodes));
    if p.failures >= PATH_FAILURE_THRESHOLD then Drop(s1, t, path, busy)
    else s1.(active := s1.active[t := Overwrite(Active(s, t), k, p)])
  }

  /** A failure on a path that is being dropped can only use up a node. */
  function StrikePending(s: PathState, guard: Node, bad: Option<seq<int>>): PathState {
    var j := GuardIndex(PendingPaths(s), guard);
    if j < |s.pending| then s.(unusedNodes := UnusedAfter(s.pending[j].0, bad, s.unusedNodes)) else s
  }

  /** A failure on the path with that guard. */
  function Strike(s: PathState, t: PathType, guard: Node, bad: Option<seq<int>>, connValid: bool, busy: nat -> bool): PathState {
    var k := GuardIndex(Active(s, t), guard);
    if k < |Active(s, t)| then StrikeActive(s, t, k, bad, connValid, busy) else StrikePending(s, guard, bad)
  }

  predicate UsesConn(p: Path, c: Connection) {
    p.nodes != [] && p.nodes[0] == c.node && p.conn.ref == c.ref
  }

  function UseIndex(ps: seq<Path>, c: Connection): (k: nat)
    ensures k <= |ps| && (k < |ps| ==> UsesConn(ps[k], c))
    ensures forall i | 0 <= i < k :: !UsesConn(ps[i], c)
  {
    if ps == [] || UsesConn(ps[0], c) then 0 else 1 + UseIndex(ps[1..], c)
  }

  function DropUser(s: PathState, t: PathType, c: Connection, busy: nat -> bool): PathState {
    var k := UseIndex(Active(s, t), c);
    if k < |Active(s, t)| then Drop(s, t, Active(s, t)[k], busy) else s
  }

  function OtherConns(cs: seq<Connection>, c: Connection): (r: seq<Connection>)
    ensures forall d :: d in r <==> d in cs && d != c
  {
    if cs == [] then [] else OtherConns(cs[..|cs| - 1], c) + (if cs[|cs| - 1] == c then [] else [cs[|cs| - 1]])
  }

  /** An order in which the unordered map of path types can be walked. */
  predicate IsTypeOrder(order: seq<PathType>) {
    |order| == 3 && Standard in order && Upload in order && Download in order
  }

  type TypeOrder = o: seq<PathType> | IsTypeOrder(o) witness [Standard, Upload, Download]

  function DropUsers(s: PathState, order: seq<PathType>, c: Connection, busy: nat -> bool): PathState
    decreases |order|
  {
    if order == [] then s
    else DropUser(DropUsers(s, order[..|order| - 1], c, busy), order[|order| - 1], c, busy)
  }

  /** A connection was closed: it is forgotten, and one path of each type that uses it is dropped. */
  function Closed(s: PathState, c: Connection, order: TypeOrder, busy: nat -> bool): PathState {
    var s1 := DropUsers(s.(unusedConns := OtherConns(s.unusedConns, c)), order, c, busy);
    s1.(pending := StillBusy(s1.pending, busy))
  }

  // ----- runs -----------------------------------------------------------------------------------------------

  datatype PathEvent =
    | BuildPath(id: string, t: PathType, refill: seq<Node>)
    | Failed(t: PathType, guard: Node, bad: Option<seq<int>>, connValid: bool, busy: nat -> bool)
    | ConnClosed(conn: Connection, order: TypeOrder, busy: nat -> bool)
    | RequestDone(busy: nat -> bool)
    | ConnOpened(conn: Connection)
    | NodesTaken(unused: seq<Node>)
    | CloseEverything
    | SetSuspension(value: bool)

  function PathStep(s: PathState, e: PathEvent): PathState {
    match e
    case BuildPath(id, t, refill) => Build(s, id, t, refill)
    case Failed(t, guard, bad, valid, busy) => Strike(s, t, guard, bad, valid, busy)
    case ConnClosed(c, order, busy) => Closed(s, c, order, busy)
    case RequestDone(busy) => s.(pending := StillBusy(s.pending, busy))
    case ConnOpened(c) => s.(unusedConns := s.unusedConns + [c])
    case NodesTaken(unused) => s.(unusedNodes := unused)
    case CloseEverything => s.(active := map[], pending := [], unusedConns := [])
    case SetSuspension(b) => s.(suspended := b)
  }

  function PathRun(events: seq<PathEvent>): PathState
    decreases |events|
  {
    if events == [] then NOTHING else PathStep(PathRun(events[..|events| - 1]), events[|events| - 1])
  }

  /** An active path: three nodes, the first its connection's, and fewer failures than the threshold. */
  predicate Usable(p: Path) {
    |p.nodes| == PATH_SIZE && p.nodes[0] == p.conn.node && p.failures < PATH_FAILURE_THRESHOLD
  }

  ghost predicate AllUsable(s: PathState) {
    && (forall t, p | p in Active(s, t) :: Usable(p))
    && (forall p | p in s.pending :: Usable(p.0))
  }
}
