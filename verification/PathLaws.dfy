/**
 What holds of the paths after every run
 (src/session_network.cpp:1435-1508, 2375-2379, 2667-2810).
 */
module PathLaws {
  import opened Options
  import opened Ordering
  import opened NodeDisk
  import opened Requests
  import opened Paths

  // ----- three nodes, fewer than three failures ---------------------------------------------------------

  lemma BuildKeeps(s: PathState, id: string, t: PathType, refill: seq<Node>)
    requires AllUsable(s)
    ensures AllUsable(Build(s, id, t, refill))
  {
    BuildPromises(s, id, t, refill);
    var o := Build(s, id, t, refill);
    if BuildOutcome(s, refill) == Built {
      forall q, p | p in Active(o, q) ensures Usable(p) {
        if q == t && p !in Active(s, t) {
          assert p == Active(o, t)[|Active(s, t)|];
        }
      }
    } else {
      assert forall q :: Active(o, q) == Active(s, q);
    }
  }

  lemma DropKeeps(s: PathState, t: PathType, p: Path, busy: nat -> bool)
    requires AllUsable(s) && Usable(p)
    ensures AllUsable(Drop(s, t, p, busy))
  {
    var o := Drop(s, t, p, busy);
    forall q, r | r in Active(o, q) ensures Usable(r) {
      assert r in Active(s, q);
    }
  }

  lemma UpdatedUsable(p: Path, bad: Option<seq<int>>, connValid: bool, unused: seq<Node>)
    requires Usable(p) && Updated(p, bad, connValid, unused).failures < PATH_FAILURE_THRESHOLD
    ensures Usable(Updated(p, bad, connValid, unused))
  {
  }

  lemma FailActiveKeeps(s: PathState, t: PathType, k: nat, bad: Option<seq<int>>, connValid: bool, busy: nat -> bool)
    requires AllUsable(s) && k < |Active(s, t)|
    ensures AllUsable(StrikeActive(s, t, k, bad, connValid, busy))
  {
    var ps := Active(s, t);
    assert ps[k] in Active(s, t);
    var p := Updated(ps[k], bad, connValid, s.unusedNodes);
    var s1 := s.(unusedNodes := UnusedAfter(ps[k], bad, s.unusedNodes));
    assert forall q :: Active(s1, q) == Active(s, q);
    if p.failures >= PATH_FAILURE_THRESHOLD {
      DropKeeps(s1, t, ps[k], busy);
    } else {
      UpdatedUsable(ps[k], bad, connValid, s.unusedNodes);
      var o := s1.(active := s1.active[t := Overwrite(ps, k, p)]);
      forall q, r | r in Active(o, q) ensures Usable(r) {
        assert r in Active(s, q) || r == p;
      }
    }
  }

  lemma FailKeeps(s: PathState, t: PathType, guard: Node, bad: Option<seq<int>>, connValid: bool, busy: nat -> bool)
    requires AllUsable(s)
    ensures AllUsable(Strike(s, t, guard, bad, connValid, busy))
  {
    var k := GuardIndex(Active(s, t), guard);
    if k < |Active(s, t)| {
      FailActiveKeeps(s, t, k, bad, connValid, busy);
    } else {
      var o := Strike(s, t, guard, bad, connValid, busy);
      assert forall q :: Active(o, q) == Active(s, q);
    }
  }

  lemma DropUserKeeps(s: PathState, t: PathType, c: Connection, busy: nat -> bool)
    requires AllUsable(s)
    ensures AllUsable(DropUser(s, t, c, busy))
  {
    var ps := Active(s, t);
    var k := UseIndex(ps, c);
    if k < |ps| {
      assert ps[k] in Active(s, t);
      DropKeeps(s, t, ps[k], busy);
    }
  }

  lemma {:induction false} DropUsersKeep(s: PathState, order: seq<PathType>, c: Connection, busy: nat -> bool)
    requires AllUsable(s)
    ensures AllUsable(DropUsers(s, order, c, busy))
    decreases |order|
  {
    if order != [] {
      var n := |order| - 1;
      DropUsersKeep(s, order[..n], c, busy);
      DropUserKeeps(DropUsers(s, order[..n], c, busy), order[n], c, busy);
    }
  }

  lemma ClosedKeeps(s: PathState, c: Connection, order: TypeOrder, busy: nat -> bool)
    requires AllUsable(s)
    ensures AllUsable(Closed(s, c, order, busy))
  {
    var s1 := s.(unusedConns := OtherConns(s.unusedConns, c));
    assert forall q :: Active(s1, q) == Active(s, q);
    DropUsersKeep(s1, order, c, busy);
    var s2 := DropUsers(s1, order, c, busy);
    ClearKeeps(s2, busy);
  }

  lemma ClearKeeps(s: PathState, busy: nat -> bool)
    requires AllUsable(s)
    ensures AllUsable(s.(pending := StillBusy(s.pending, busy)))
  {
    var o := s.(pending := StillBusy(s.pending, busy));
    assert forall q :: Active(o, q) == Active(s, q);
  }

  /** The order in which the types are walked makes no difference to the paths left. */
  lemma ClosedInAnyOrder(s: PathState, c: Connection, a: TypeOrder, b: TypeOrder, busy: nat -> bool, t: PathType)
    ensures Active(Closed(s, c, a, busy), t) == Active(Closed(s, c, b, busy), t)
    ensures Closed(s, c, a, busy).unusedConns == Closed(s, c, b, busy).unusedConns
  {
    var s1 := s.(unusedConns := OtherConns(s.unusedConns, c));
    OrderDistinct(a);
    OrderDistinct(b);
    DropUsersAt(s1, a, c, busy, t);
    DropUsersAt(s1, b, c, busy, t);
  }

  lemma OrderDistinct(a: TypeOrder)
    ensures Distinct(a) && forall t: PathType :: t in a
  {
    assert a == [a[0], a[1], a[2]];
    forall t: PathType ensures t in a {
      match t case Standard => case Upload => case Download =>
    }
  }

  lemma DropUserOther(s: PathState, q: PathType, c: Connection, busy: nat -> bool, t: PathType)
    requires t != q
    ensures Active(DropUser(s, q, c, busy), t) == Active(s, t)
  {
  }

  lemma DropUserSame(a: PathState, b: PathState, t: PathType, c: Connection, busy: nat -> bool)
    requires Active(a, t) == Active(b, t)
    ensures Active(DropUser(a, t, c, busy), t) == Active(DropUser(b, t, c, busy), t)
  {
  }

  lemma {:induction false} DropUsersAt(s: PathState, order: seq<PathType>, c: Connection, busy: nat -> bool, t: PathType)
    requires Distinct(order)
    ensures Active(DropUsers(s, order, c, busy), t) == if t in order then Active(DropUser(s, t, c, busy), t) else Active(s, t)
    ensures DropUsers(s, order, c, busy).unusedConns == s.unusedConns
    decreases |order|
  {
    if order != [] {
      var n := |order| - 1;
      assert order == order[..n] + [order[n]];
      DropUsersAt(s, order[..n], c, busy, t);
      var before := DropUsers(s, order[..n], c, busy);
      if t == order[n] {
        assert t !in order[..n];
        DropUserSame(before, s, t, c, busy);
      } else {
        DropUserOther(before, order[n], c, busy, t);
      }
    }
  }

  lemma PathStepKeeps(s: PathState, e: PathEvent)
    requires AllUsable(s)
    ensures AllUsable(PathStep(s, e))
  {
    match e
    case BuildPath(id, t, refill) => BuildKeeps(s, id, t, refill);
    case Failed(t, guard, bad, valid, busy) => FailKeeps(s, t, guard, bad, valid, busy);
    case ConnClosed(c, order, busy) => ClosedKeeps(s, c, order, busy);
    case RequestDone(busy) => ClearKeeps(s, busy);
    case _ =>
      assert forall q :: Active(PathStep(s, e), q) == Active(s, q) || Active(PathStep(s, e), q) == [];
  }

  /** In every reachable state each active path has exactly three nodes and fewer than three failures. */
  lemma {:induction false} PathInvariant(events: seq<PathEvent>)
    ensures AllUsable(PathRun(events))
    decreases |events|
  {
    if events != [] {
      PathInvariant(events[..|events| - 1]);
      PathStepKeeps(PathRun(events[..|events| - 1]), events[|events| - 1]);
    }
  }

  // ----- the third failure drops the path -----------------------------------------------------------------

  /** `p` is the path that a failure of its guard finds. */
  ghost predicate Standing(s: PathState, t: PathType, k: nat, p: Path) {
    AllUsable(s) && k < |Active(s, t)| && Active(s, t)[k] == p && GuardIndex(Active(s, t), p.conn.node) == k
  }

  /** A failure that names no bad node counts against the path. */
  lemma OneStrike(s: PathState, t: PathType, k: nat, p: Path, connValid: bool, busy: nat -> bool)
    requires Standing(s, t, k, p) && p.failures + 1 < PATH_FAILURE_THRESHOLD
    ensures Standing(Strike(s, t, p.conn.node, None, connValid, busy), t, k, p.(failures := p.failures + 1))
  {
    var ps, q := Active(s, t), p.(failures := p.failures + 1);
    assert p in Active(s, t);
    var o := Strike(s, t, p.conn.node, None, connValid, busy);
    FailKeeps(s, t, p.conn.node, None, connValid, busy);
    assert Active(o, t) == Overwrite(ps, k, q);
    OverwriteGuard(ps, k, q);
  }

  lemma OverwriteGuard(ps: seq<Path>, k: nat, q: Path)
    requires k < |ps| && q.nodes == ps[k].nodes && q.nodes != [] && GuardIndex(ps, q.nodes[0]) == k
    ensures GuardIndex(Overwrite(ps, k, q), q.nodes[0]) == k
  {
    var os := Overwrite(ps, k, q);
    assert os[k] == q;
    assert forall i | 0 <= i < k :: os[i] == ps[i];
  }

  /** The last failure drops it, until its requests are done. */
  lemma LastStrike(s: PathState, t: PathType, k: nat, p: Path, connValid: bool, busy: nat -> bool)
    requires Standing(s, t, k, p) && p.failures + 1 == PATH_FAILURE_THRESHOLD
    ensures var o := Strike(s, t, p.conn.node, None, connValid, busy);
      && (forall q | q in Active(o, t) :: q in Active(s, t) && q.nodes != p.nodes)
      && ((p, t) in o.pending <==> busy(p.conn.ref))
  {
  }

  /** A path is kept through two such failures and dropped by the third. */
  lemma ThreeStrikes(s: PathState, t: PathType, k: nat, p: Path, connValid: bool, busy: nat -> bool)
    requires Standing(s, t, k, p) && p.failures == 0
    ensures var s1 := Strike(s, t, p.conn.node, None, connValid, busy);
      var s2 := Strike(s1, t, p.conn.node, None, connValid, busy);
      var s3 := Strike(s2, t, p.conn.node, None, connValid, busy);
      && Standing(s1, t, k, p.(failures := 1)) && Standing(s2, t, k, p.(failures := 2))
      && forall q | q in Active(s3, t) :: q.nodes != p.nodes
  {
    var s1 := Strike(s, t, p.conn.node, None, connValid, busy);
    var s2 := Strike(s1, t, p.conn.node, None, connValid, busy);
    OneStrike(s, t, k, p, connValid, busy);
    OneStrike(s1, t, k, p.(failures := 1), connValid, busy);
    LastStrike(s2, t, k, p.(failures := 2), connValid, busy);
  }

  // ----- one node per IP ------------------------------------------------------------------------------------

  ghost predicate AllSpread(s: PathState) {
    forall t, p | p in Active(s, t) :: DistinctIps(p.nodes)
  }

  /** The repair that a failure makes puts a second node of some IP into the path. */
  predicate Spoils(p: Path, bad: Option<seq<int>>, connValid: bool, unused: seq<Node>) {
    && Replaceable(p, bad, unused)
    && (!connValid ==> p.failures + 1 < PATH_FAILURE_THRESHOLD)
    && exists i | 0 <= i < |p.nodes| && i != KeyIndex(p.nodes, bad.value) :: p.nodes[i].ip == unused[|unused| - 1].ip
  }

  lemma UpdatedSpread(p: Path, bad: Option<seq<int>>, connValid: bool, unused: seq<Node>)
    requires Usable(p) && DistinctIps(p.nodes) && Updated(p, bad, connValid, unused).failures < PATH_FAILURE_THRESHOLD
    ensures DistinctIps(Updated(p, bad, connValid, unused).nodes) <==> !Spoils(p, bad, connValid, unused)
  {
    var q := Updated(p, bad, connValid, unused);
    if Replaceable(p, bad, unused) {
      var k, n := KeyIndex(p.nodes, bad.value), unused[|unused| - 1];
      assert q.nodes == p.nodes[k := n];
      if Spoils(p, bad, connValid, unused) {
        var i :| 0 <= i < |p.nodes| && i != k && p.nodes[i].ip == n.ip;
        assert q.nodes[i].ip == q.nodes[k].ip;
      } else {
        forall i, j | 0 <= i < j < |q.nodes| ensures q.nodes[i].ip != q.nodes[j].ip {
          assert p.nodes[i].ip != p.nodes[j].ip;
        }
      }
    } else {
      assert q.nodes == p.nodes;
    }
  }

  /** The event repairs a path with a node whose IP the path already has. */
  predicate SpoilsAPath(s: PathState, e: PathEvent) {
    e.Failed? && var ps := Active(s, e.t); var k := GuardIndex(ps, e.guard);
    k < |ps| && Spoils(ps[k], e.bad, e.connValid, s.unusedNodes)
  }

  lemma OverwriteSpread(s: PathState, t: PathType, k: nat, p: Path, o: PathState)
    requires AllSpread(s) && k < |Active(s, t)|
    requires o.active == s.active[t := Overwrite(Active(s, t), k, p)]
    ensures AllSpread(o) <==> DistinctIps(p.nodes)
  {
    assert Active(o, t)[k] == p && p in Active(o, t);
    forall q, r | r in Active(o, q) ensures r in Active(s, q) || r == p { }
  }

  lemma FailSpread(s: PathState, e: PathEvent)
    requires AllUsable(s) && AllSpread(s) && e.Failed?
    ensures AllSpread(PathStep(s, e)) <==> !SpoilsAPath(s, e)
  {
    var o := PathStep(s, e);
    var ps := Active(s, e.t);
    var k := GuardIndex(ps, e.guard);
    if k < |ps| {
      var p := Updated(ps[k], e.bad, e.connValid, s.unusedNodes);
      assert ps[k] in Active(s, e.t);
      assert Usable(ps[k]) && DistinctIps(ps[k].nodes);
      if p.failures < PATH_FAILURE_THRESHOLD {
        UpdatedSpread(ps[k], e.bad, e.connValid, s.unusedNodes);
        OverwriteSpread(s, e.t, k, p, o);
      } else {
        assert !Spoils(ps[k], e.bad, e.connValid, s.unusedNodes);
        DropShrinks(s, e.t, ps[k], e.busy, o);
      }
    } else {
      assert forall q :: Active(o, q) == Active(s, q);
    }
  }

  lemma DropShrinks(s: PathState, t: PathType, p: Path, busy: nat -> bool, o: PathState)
    requires AllSpread(s) && o.active == s.active[t := Except(Active(s, t), p.nodes)]
    ensures AllSpread(o)
  {
    forall q, r | r in Active(o, q) ensures DistinctIps(r.nodes) {
      assert r in Active(s, q);
    }
  }

  lemma DropUserShrinks(s: PathState, t: PathType, c: Connection, busy: nat -> bool)
    ensures forall q, p | p in Active(DropUser(s, t, c, busy), q) :: p in Active(s, q)
  {
  }

  lemma {:induction false} DropUsersShrink(s: PathState, order: seq<PathType>, c: Connection, busy: nat -> bool)
    ensures forall q, p | p in Active(DropUsers(s, order, c, busy), q) :: p in Active(s, q)
    decreases |order|
  {
    if order != [] {
      var n := |order| - 1;
      DropUsersShrink(s, order[..n], c, busy);
      DropUserShrinks(DropUsers(s, order[..n], c, busy), order[n], c, busy);
    }
  }

  /** Every event keeps one node per IP in every path, except exactly a repair that does not look at IPs. */
  lemma SpreadKeptIff(s: PathState, e: PathEvent)
    requires AllUsable(s) && AllSpread(s)
    ensures AllSpread(PathStep(s, e)) <==> !SpoilsAPath(s, e)
  {
    var o := PathStep(s, e);
    match e
    case BuildPath(id, t, refill) =>
      BuildPromises(s, id, t, refill);
      if BuildOutcome(s, refill) == Built {
        forall q, p | p in Active(o, q) ensures DistinctIps(p.nodes) {
          if q == t && p !in Active(s, t) {
            assert p == Active(o, t)[|Active(s, t)|];
          }
        }
      } else {
        assert forall q :: Active(o, q) == Active(s, q);
      }
    case Failed(t, guard, bad, valid, busy) => FailSpread(s, e);
    case ConnClosed(c, order, busy) =>
      var s1 := s.(unusedConns := OtherConns(s.unusedConns, c));
      DropUsersShrink(s1, order, c, busy);
      assert forall q :: Active(s1, q) == Active(s, q) && Active(o, q) == Active(DropUsers(s1, order, c, busy), q);
    case _ =>
      assert forall q :: Active(o, q) == Active(s, q) || Active(o, q) == [];
  }

  /** One node per IP in every path, as long as no event of the run was such a repair. */
  lemma {:induction false} SpreadOverRuns(events: seq<PathEvent>)
    requires forall i | 0 <= i < |events| :: !SpoilsAPath(PathRun(events[..i]), events[i])
    ensures AllSpread(PathRun(events))
    decreases |events|
  {
    if events != [] {
      var n := |events| - 1;
      var front := events[..n];
      forall i | 0 <= i < n ensures !SpoilsAPath(PathRun(front[..i]), front[i]) {
        assert front[..i] == events[..i] && front[i] == events[i];
      }
      SpreadOverRuns(front);
      PathInvariant(front);
      SpreadKeptIff(PathRun(front), events[n]);
    }
  }

  /** The event speaks of nodes and keys that the source can have. */
  predicate Typed(e: PathEvent) {
    match e
    case BuildPath(_, _, refill) => AllTyped(refill)
    case Failed(_, guard, bad, _, _) => WellTyped(guard) && (bad.Some? ==> IsKey(bad.value))
    case ConnClosed(c, _, _) => WellTyped(c.node)
    case ConnOpened(c) => WellTyped(c.node)
    case NodesTaken(unused) => AllTyped(unused)
    case _ => true
  }

  predicate IsKey(key: seq<int>) {
    |key| == 32 && forall i | 0 <= i < 32 :: 0 <= key[i] < 256
  }

  predicate TypedRun(events: seq<PathEvent>) {
    forall i | 0 <= i < |events| :: Typed(events[i])
  }

  function Host(key: int, ip: string): Node {
    Node(KeyOf(key), [2, 8], 1, ip, 22021)
  }

  /** The state with one standard path. */
  function OnePath(p: Path, unused: seq<Node>): PathState {
    PathState(map[Standard := [p]], [], unused, [], false)
  }

  lemma NoneShared(g: Node, x: Node, y: Node, rest: seq<Node>)
    requires forall n | n in rest :: n.ip != x.ip && n.ip != y.ip && n.ip != g.ip
    ensures Unshared(rest, Ips([g, y, x])) == rest
  {
    assert forall n | n in [g, y, x] :: n == g || n == x || n == y;
    Untouched(rest, Ips([g, y, x]));
  }

  lemma FirstBuild(conn: Connection, rest: seq<Node>, x: Node, y: Node)
    requires conn.node.ip != x.ip && conn.node.ip != y.ip && x.ip != y.ip && |rest| > 0
    requires forall n | n in rest :: n.ip != x.ip && n.ip != y.ip && n.ip != conn.node.ip
    ensures Build(NOTHING.(unusedConns := [conn]), "P", Standard, rest + [x, y])
         == OnePath(Path("P", conn, [conn.node, y, x], 0), rest)
  {
    var s, all := NOTHING.(unusedConns := [conn]), rest + [x, y];
    var nodes := [conn.node, y, x];
    TwoTaken(conn.node, rest, x, y);
    NoneShared(conn.node, x, y, rest);
    BuildEmpty(s, conn, all, nodes, rest);
  }

  /** A build in a state without paths. */
  lemma BuildEmpty(s: PathState, conn: Connection, all: seq<Node>, nodes: seq<Node>, rest: seq<Node>)
    requires s == NOTHING.(unusedConns := [conn]) && |all| >= PATH_SIZE && |nodes| == PATH_SIZE
    requires Grow([conn.node], all) == (nodes, rest) && Unshared(rest, Ips(nodes)) == rest
    ensures Build(s, "P", Standard, all) == OnePath(Path("P", conn, nodes, 0), rest)
  {
    var p := Path("P", conn, nodes, 0);
    assert Refilled(s, all) == all && s.unusedConns[0] == conn;
    assert BuildOutcome(s, all) == Built;
    var o := Build(s, "P", Standard, all);
    assert o.unusedNodes == rest && o.pending == [] && !o.suspended;
    assert o.unusedConns == [conn][1..] == [];
    assert Active(s, Standard) + [p] == [p];
    assert o.active == map[Standard := [p]];
  }

  lemma Repair(p: Path, unused: seq<Node>, u: Node, key: seq<int>, busy: nat -> bool)
    requires Usable(p) && 0 < KeyIndex(p.nodes, key) < |p.nodes|
    ensures Strike(OnePath(p, unused + [u]), Standard, p.nodes[0], Some(key), true, busy)
         == OnePath(p.(nodes := p.nodes[KeyIndex(p.nodes, key) := u]), unused)
  {
    var s := OnePath(p, unused + [u]);
    assert Active(s, Standard) == [p] && GuardIndex([p], p.nodes[0]) == 0;
    assert (unused + [u])[..|unused|] == unused;
    var q := p.(nodes := p.nodes[KeyIndex(p.nodes, key) := u]);
    assert Overwrite([p], 0, q) == [q];
    assert s.active[Standard := [q]] == map[Standard := [q]];
  }

  lemma RunMore(events: seq<PathEvent>, e: PathEvent)
    requires TypedRun(events) && Typed(e)
    ensures PathRun(events + [e]) == PathStep(PathRun(events), e) && TypedRun(events + [e])
  {
    assert (events + [e])[..|events|] == events;
  }

  lemma TwoRepairs(built: seq<PathEvent>, p: Path, u1: Node, u2: Node) returns (events: seq<PathEvent>)
    requires Usable(p) && AllTyped(p.nodes) && TypedRun(built) && PathRun(built) == OnePath(p, [u1] + [u2])
    requires KeyIndex(p.nodes, p.nodes[1].pubkey) == 1 && KeyIndex(p.nodes, p.nodes[2].pubkey) == 2
    ensures TypedRun(events) && PathRun(events) == OnePath(p.(nodes := [p.nodes[0], u1, u2]), [])
  {
    var idle := (ref: nat) => false;
    var fail1 := Failed(Standard, p.nodes[0], Some(p.nodes[2].pubkey), true, idle);
    var fail2 := Failed(Standard, p.nodes[0], Some(p.nodes[1].pubkey), true, idle);
    var p1 := p.(nodes := p.nodes[2 := u2]);
    Repair(p, [u1], u2, p.nodes[2].pubkey, idle);
    RunMore(built, fail1);
    assert PathRun(built + [fail1]) == OnePath(p1, [u1]);
    assert [] + [u1] == [u1];
    Repair(p1, [], u1, p.nodes[1].pubkey, idle);
    RunMore(built + [fail1], fail2);
    assert p1.nodes[1 := u1] == [p.nodes[0], u1, u2];
    events := built + [fail1] + [fail2];
  }

  /**
   Such a run exists, over well-typed nodes: two unused nodes of one IP repair the same path one
   after the other, and the path ends with two nodes on that IP.
   */
  lemma SpreadCanFail()
    ensures exists events: seq<PathEvent> :: TypedRun(events) && AllUsable(PathRun(events)) && !AllSpread(PathRun(events))
  {
    var guard, x, y := Host(1, "10.0.0.1"), Host(2, "10.0.0.2"), Host(3, "10.0.0.3");
    var u1, u2 := Host(4, "10.0.0.4"), Host(5, "10.0.0.4");
    var conn := Connection(guard, 0);
    assert guard.ip[7] == '1' && x.ip[7] == '2' && y.ip[7] == '3' && u1.ip[7] == '4';
    var rest := [u1] + [u2];
    assert forall n | n in rest :: n.ip[7] == '4';
    assert AllTyped([guard, y, x]) && AllTyped(rest + [x, y]);
    var built := BuiltRun(conn, rest, x, y);
    var p := Path("P", conn, [guard, y, x], 0);
    assert guard.pubkey[0] == 1 && y.pubkey[0] == 3 && x.pubkey[0] == 2;
    var events := TwoRepairs(built, p, u1, u2);
    var last := p.(nodes := [guard, u1, u2]);
    assert last in Active(PathRun(events), Standard) && last.nodes[1].ip == last.nodes[2].ip;
    PathInvariant(events);
  }

  lemma BuiltRun(conn: Connection, rest: seq<Node>, x: Node, y: Node) returns (events: seq<PathEvent>)
    requires conn.node.ip != x.ip && conn.node.ip != y.ip && x.ip != y.ip && |rest| > 0
    requires forall n | n in rest :: n.ip != x.ip && n.ip != y.ip && n.ip != conn.node.ip
    requires WellTyped(conn.node) && AllTyped(rest + [x, y])
    ensures TypedRun(events) && PathRun(events) == OnePath(Path("P", conn, [conn.node, y, x], 0), rest)
  {
    var build := BuildPath("P", Standard, rest + [x, y]);
    OpenedRun(conn);
    RunMore([ConnOpened(conn)], build);
    FirstBuild(conn, rest, x, y);
    events := [ConnOpened(conn)] + [build];
  }

  lemma OpenedRun(conn: Connection)
    ensures PathRun([ConnOpened(conn)]) == NOTHING.(unusedConns := [conn])
  {
    var events := [ConnOpened(conn)];
    assert events[..0] == [];
    assert PathRun([]) == NOTHING;
    assert NOTHING.unusedConns + [conn] == [conn];
  }

  lemma TwoTaken(guard: Node, rest: seq<Node>, x: Node, y: Node)
    requires guard.ip != x.ip && guard.ip != y.ip && x.ip != y.ip
    ensures Grow([guard], rest + [x, y]) == ([guard, y, x], rest)
  {
    var all := rest + [x, y];
    assert all[..|all| - 1] == rest + [x] && (rest + [x])[..|rest|] == rest;
    assert y.ip !in Ips([guard]) && x.ip !in Ips([guard, y]);
    assert [guard] + [y] == [guard, y] && [guard, y] + [x] == [guard, y, x];
    assert Grow([guard, y, x], rest) == ([guard, y, x], rest);
    assert Grow([guard, y], rest + [x]) == ([guard, y, x], rest);
  }

  lemma {:induction false} Untouched(nodes: seq<Node>, ips: set<string>)
    requires forall n | n in nodes :: n.ip !in ips
    ensures Unshared(nodes, ips) == nodes
  {
    if nodes != [] {
      assert nodes == nodes[..|nodes| - 1] + [nodes[|nodes| - 1]];
      Untouched(nodes[..|nodes| - 1], ips);
    }
  }
}
