/**
 What each event does to the paths, in terms of the paths alone
 (src/session_network.cpp:953-974, 1396-1509, 2375-2417, 2667-2811).
 */
module PathEffects {
  import opened Options
  import opened Ordering
  import opened NodeDisk
  import opened Requests
  import opened Paths
  import opened PathLaws

  // ----- dropping ---------------------------------------------------------------------------------------

  /** `o` is `s` without the paths that have the nodes of `p`; `p` is pending while it has requests. */
  ghost predicate DroppedFrom(s: PathState, t: PathType, p: Path, busy: nat -> bool, o: PathState) {
    && (forall q :: q in Active(o, t) <==> q in Active(s, t) && q.nodes != p.nodes)
    && (forall u | u != t :: Active(o, u) == Active(s, u))
    && (forall e :: e in o.pending <==> (e in s.pending || e == (p, t)) && busy(e.0.conn.ref))
    && o.unusedConns == s.unusedConns && o.suspended == s.suspended
  }

  lemma DropIsDropped(s: PathState, t: PathType, p: Path, busy: nat -> bool)
    ensures DroppedFrom(s, t, p, busy, Drop(s, t, p, busy))
  {
  }

  /** The filters keep the order of what they leave. */
  lemma {:induction false} ExceptInOrder(a: seq<Path>, b: seq<Path>, nodes: seq<Node>)
    ensures Except(a + b, nodes) == Except(a, nodes) + Except(b, nodes)
    decreases |b|
  {
    if b == [] {
      assert a + b == a;
    } else {
      assert (a + b)[..|a + b| - 1] == a + b[..|b| - 1];
      ExceptInOrder(a, b[..|b| - 1], nodes);
    }
  }

  lemma {:induction false} StillBusyInOrder(a: seq<(Path, PathType)>, b: seq<(Path, PathType)>, busy: nat -> bool)
    ensures StillBusy(a + b, busy) == StillBusy(a, busy) + StillBusy(b, busy)
    decreases |b|
  {
    if b == [] {
      assert a + b == a;
    } else {
      assert (a + b)[..|a + b| - 1] == a + b[..|b| - 1];
      StillBusyInOrder(a, b[..|b| - 1], busy);
    }
  }

  lemma {:induction false} UnsharedInOrder(a: seq<Node>, b: seq<Node>, ips: set<string>)
    ensures Unshared(a + b, ips) == Unshared(a, ips) + Unshared(b, ips)
    decreases |b|
  {
    if b == [] {
      assert a + b == a;
    } else {
      assert (a + b)[..|a + b| - 1] == a + b[..|b| - 1];
      UnsharedInOrder(a, b[..|b| - 1], ips);
    }
  }

  lemma {:induction false} OtherConnsInOrder(a: seq<Connection>, b: seq<Connection>, c: Connection)
    ensures OtherConns(a + b, c) == OtherConns(a, c) + OtherConns(b, c)
    decreases |b|
  {
    if b == [] {
      assert a + b == a;
    } else {
      assert (a + b)[..|a + b| - 1] == a + b[..|b| - 1];
      OtherConnsInOrder(a, b[..|b| - 1], c);
    }
  }

  // ----- failures -----------------------------------------------------------------------------------------

  /** `o` is `s` with the path at `k` replaced by `q`, and so are later paths with the nodes of `q`. */
  ghost predicate ReplacedAt(s: PathState, t: PathType, k: nat, q: Path, o: PathState) {
    && |Active(o, t)| == |Active(s, t)| && k < |Active(o, t)| && Active(o, t)[k] == q
    && (forall i | 0 <= i < |Active(s, t)| && i != k ::
          Active(o, t)[i] == if k < i && Active(s, t)[i].nodes == q.nodes then q else Active(s, t)[i])
    && (forall u | u != t :: Active(o, u) == Active(s, u))
    && o.pending == s.pending && o.unusedConns == s.unusedConns && o.suspended == s.suspended
  }

  /** The new state, by the updated copy of the path. */
  lemma StrikeStanding(s: PathState, t: PathType, k: nat, p: Path, bad: Option<seq<int>>, connValid: bool, busy: nat -> bool)
    requires Standing(s, t, k, p)
    ensures var o, q := Strike(s, t, p.conn.node, bad, connValid, busy), Updated(p, bad, connValid, s.unusedNodes);
      && o.unusedNodes == UnusedAfter(p, bad, s.unusedNodes)
      && if q.failures < 3 then ReplacedAt(s, t, k, q, o) else DroppedFrom(s, t, p, busy, o)
  {
    var q, u := Updated(p, bad, connValid, s.unusedNodes), UnusedAfter(p, bad, s.unusedNodes);
    if q.failures < 3 {
      OverwrittenAt(s, t, k, q, u);
    } else {
      DroppedWith(s, t, p, busy, u);
    }
  }

  lemma OverwrittenAt(s: PathState, t: PathType, k: nat, q: Path, u: seq<Node>)
    requires k < |Active(s, t)|
    ensures ReplacedAt(s, t, k, q, s.(unusedNodes := u, active := s.active[t := Overwrite(Active(s, t), k, q)]))
  {
    var o := s.(unusedNodes := u, active := s.active[t := Overwrite(Active(s, t), k, q)]);
    assert Active(o, t) == Overwrite(Active(s, t), k, q);
  }

  lemma DroppedWith(s: PathState, t: PathType, p: Path, busy: nat -> bool, u: seq<Node>)
    ensures DroppedFrom(s, t, p, busy, Drop(s.(unusedNodes := u), t, p, busy))
  {
    var s1 := s.(unusedNodes := u);
    DropIsDropped(s1, t, p, busy);
    assert forall v :: Active(s1, v) == Active(s, v);
  }

  /** A failure that names no node of the path counts one against it; the third drops it. */
  lemma StruckExactly(s: PathState, t: PathType, k: nat, p: Path, bad: Option<seq<int>>, connValid: bool, busy: nat -> bool)
    requires Standing(s, t, k, p)
    requires bad.Some? ==> forall i | 0 <= i < |p.nodes| :: p.nodes[i].pubkey != bad.value
    ensures var o := Strike(s, t, p.conn.node, bad, connValid, busy);
      && o.unusedNodes == s.unusedNodes
      && if p.failures < 2 then ReplacedAt(s, t, k, p.(failures := p.failures + 1), o) else DroppedFrom(s, t, p, busy, o)
  {
    StrikeStanding(s, t, k, p, bad, connValid, busy);
    assert !FindsBad(p, bad);
  }

  /**
   A bad node that cannot be replaced, because it is the guard or because no node is left, drops
   the path at once, whatever its failures and its connection.
   */
  lemma BadNodeDrops(s: PathState, t: PathType, k: nat, p: Path, key: seq<int>, connValid: bool, busy: nat -> bool)
    requires Standing(s, t, k, p) && p.nodes != []
    requires p.nodes[0].pubkey == key || (s.unusedNodes == [] && HasKey(p.nodes, key))
    ensures var o := Strike(s, t, p.conn.node, Some(key), connValid, busy);
      DroppedFrom(s, t, p, busy, o) && o.unusedNodes == s.unusedNodes
  {
    StrikeStanding(s, t, k, p, Some(key), connValid, busy);
    assert FindsBad(p, Some(key)) && !Replaceable(p, Some(key), s.unusedNodes);
  }

  /**
   Any other bad node is replaced by the last unused one, and by nothing else; the failures stay
   as they are when the connection is valid and else count one more, which may drop the path.
   */
  lemma BadNodeReplaced(s: PathState, t: PathType, k: nat, p: Path, i: nat, connValid: bool, busy: nat -> bool)
    requires Standing(s, t, k, p) && 0 < i < |p.nodes| && s.unusedNodes != []
    requires forall j | 0 <= j < i :: p.nodes[j].pubkey != p.nodes[i].pubkey
    ensures var o, n := Strike(s, t, p.conn.node, Some(p.nodes[i].pubkey), connValid, busy), |s.unusedNodes| - 1;
      && o.unusedNodes == s.unusedNodes[..n]
      && if connValid then ReplacedAt(s, t, k, p.(nodes := p.nodes[i := s.unusedNodes[n]]), o)
         else if p.failures < 2 then ReplacedAt(s, t, k, p.(nodes := p.nodes[i := s.unusedNodes[n]], failures := p.failures + 1), o)
         else DroppedFrom(s, t, p, busy, o)
  {
    StrikeStanding(s, t, k, p, Some(p.nodes[i].pubkey), connValid, busy);
    UpdatedReplaced(p, i, connValid, s.unusedNodes);
    StandingIsUsable(s, t, k, p);
  }

  lemma StandingIsUsable(s: PathState, t: PathType, k: nat, p: Path)
    requires Standing(s, t, k, p)
    ensures Usable(p)
  {
    assert p in Active(s, t);
  }

  lemma UpdatedReplaced(p: Path, i: nat, connValid: bool, unused: seq<Node>)
    requires 0 < i < |p.nodes| && unused != [] && forall j | 0 <= j < i :: p.nodes[j].pubkey != p.nodes[i].pubkey
    ensures var key, n := Some(p.nodes[i].pubkey), |unused| - 1;
      && Updated(p, key, connValid, unused) == p.(nodes := p.nodes[i := unused[n]], failures := if connValid then p.failures else p.failures + 1)
      && UnusedAfter(p, key, unused) == unused[..n]
  {
    assert KeyIndex(p.nodes, p.nodes[i].pubkey) == i;
  }

  /** Failures on paths that are not active change no path, and nothing at all without a pending one. */
  lemma StruckElsewhere(s: PathState, t: PathType, guard: Node, bad: Option<seq<int>>, connValid: bool, busy: nat -> bool)
    requires forall p | p in Active(s, t) :: p.nodes == [] || p.nodes[0] != guard
    ensures var o := Strike(s, t, guard, bad, connValid, busy);
      && o == s.(unusedNodes := o.unusedNodes)
      && ((forall e | e in s.pending :: e.0.nodes == [] || e.0.nodes[0] != guard) ==> o == s)
  {
    NoGuard(Active(s, t), guard);
    var j := GuardIndex(PendingPaths(s), guard);
    if j < |s.pending| { assert s.pending[j] in s.pending; }
  }

  lemma NoGuard(ps: seq<Path>, guard: Node)
    requires forall p | p in ps :: p.nodes == [] || p.nodes[0] != guard
    ensures GuardIndex(ps, guard) == |ps|
  {
    var k := GuardIndex(ps, guard);
    assert forall i | 0 <= i < |ps| :: ps[i] in ps;
  }

  /**
   They use up the last unused node exactly when the first pending path with that guard has the bad
   node after its guard.
   */
  lemma StruckPending(s: PathState, t: PathType, j: nat, bad: Option<seq<int>>, connValid: bool, busy: nat -> bool)
    requires j < |s.pending| && s.pending[j].0.nodes != []
    requires var guard := s.pending[j].0.nodes[0];
      && (forall p | p in Active(s, t) :: p.nodes == [] || p.nodes[0] != guard)
      && (forall e: nat | e < j :: s.pending[e].0.nodes == [] || s.pending[e].0.nodes[0] != guard)
    ensures var nodes := s.pending[j].0.nodes;
      Strike(s, t, nodes[0], bad, connValid, busy).unusedNodes ==
        if bad.Some? && s.unusedNodes != [] && nodes[0].pubkey != bad.value && HasKey(nodes, bad.value)
        then s.unusedNodes[..|s.unusedNodes| - 1] else s.unusedNodes
  {
    var p := s.pending[j].0;
    NoGuard(Active(s, t), p.nodes[0]);
    assert PendingPaths(s)[j] == p;
    assert GuardIndex(PendingPaths(s), p.nodes[0]) == j;
    ReplaceableIff(p, bad, s.unusedNodes);
  }

  lemma ReplaceableIff(p: Path, bad: Option<seq<int>>, unused: seq<Node>)
    requires p.nodes != []
    ensures Replaceable(p, bad, unused) <==>
            bad.Some? && unused != [] && p.nodes[0].pubkey != bad.value && HasKey(p.nodes, bad.value)
  {
    if bad.Some? && KeyIndex(p.nodes, bad.value) < |p.nodes| {
      assert p.nodes[KeyIndex(p.nodes, bad.value)].pubkey == bad.value;
    }
  }

  predicate HasKey(nodes: seq<Node>, key: seq<int>) {
    exists i :: 0 <= i < |nodes| && nodes[i].pubkey == key
  }

  // ----- closing ---------------------------------------------------------------------------------------------

  /** The path of a type that a closed connection takes down: the first that starts at its node and uses it. */
  ghost predicate FirstUser(ps: seq<Path>, c: Connection, p: Path) {
    exists k: nat :: k < |ps| && ps[k] == p && p.nodes != [] && p.nodes[0] == c.node && p.conn.ref == c.ref
      && forall i | 0 <= i < k :: !(ps[i].nodes != [] && ps[i].nodes[0] == c.node && ps[i].conn.ref == c.ref)
  }

  /** A closed connection is no longer unused, and takes exactly one path of each type with it. */
  lemma ClosedExactly(s: PathState, c: Connection, order: TypeOrder, busy: nat -> bool, t: PathType)
    ensures var o := Closed(s, c, order, busy);
      && (forall d :: d in o.unusedConns <==> d in s.unusedConns && d != c)
      && o.unusedNodes == s.unusedNodes && o.suspended == s.suspended
      && (forall p | FirstUser(Active(s, t), c, p) :: forall q :: q in Active(o, t) <==> q in Active(s, t) && q.nodes != p.nodes)
      && ((forall p :: !FirstUser(Active(s, t), c, p)) ==> Active(o, t) == Active(s, t))
  {
    var s1 := s.(unusedConns := OtherConns(s.unusedConns, c));
    OrderDistinct(order);
    DropUsersAt(s1, order, c, busy, t);
    DropUsersFrame(s1, order, c, busy);
    FirstUserIs(Active(s, t), c);
  }

  lemma FirstUserIs(ps: seq<Path>, c: Connection)
    ensures forall p :: FirstUser(ps, c, p) <==> UseIndex(ps, c) < |ps| && p == ps[UseIndex(ps, c)]
  {
    var u := UseIndex(ps, c);
    forall p | FirstUser(ps, c, p) ensures u < |ps| && p == ps[u] {
      var k: nat :| k < |ps| && ps[k] == p && p.nodes != [] && p.nodes[0] == c.node && p.conn.ref == c.ref
        && forall i | 0 <= i < k :: !(ps[i].nodes != [] && ps[i].nodes[0] == c.node && ps[i].conn.ref == c.ref);
      assert UsesConn(ps[k], c);
      assert u == k;
    }
    if u < |ps| {
      assert forall i | 0 <= i < u :: !UsesConn(ps[i], c);
    }
  }

  lemma {:induction false} DropUsersFrame(s: PathState, order: seq<PathType>, c: Connection, busy: nat -> bool)
    ensures var o := DropUsers(s, order, c, busy); o.unusedNodes == s.unusedNodes && o.suspended == s.suspended
    decreases |order|
  {
    if order != [] { DropUsersFrame(s, order[..|order| - 1], c, busy); }
  }

  /** The paths taken down are pending, as everything is, exactly while they have requests. */
  lemma {:induction false} DroppedArePending(s: PathState, order: seq<PathType>, c: Connection, busy: nat -> bool, e: (Path, PathType))
    requires Distinct(order) && busy(e.0.conn.ref)
    ensures e in DropUsers(s, order, c, busy).pending <==> e in s.pending || (e.1 in order && FirstUser(Active(s, e.1), c, e.0))
    decreases |order|
  {
    if order != [] {
      var n := |order| - 1;
      var before, t := DropUsers(s, order[..n], c, busy), order[n];
      assert order == order[..n] + [t];
      DroppedArePending(s, order[..n], c, busy, e);
      DropUsersAt(s, order[..n], c, busy, t);
      assert t !in order[..n];
      FirstUserIs(Active(s, t), c);
      assert Active(before, t) == Active(s, t);
    }
  }

  lemma ClosedPending(s: PathState, c: Connection, order: TypeOrder, busy: nat -> bool, e: (Path, PathType))
    ensures e in Closed(s, c, order, busy).pending <==> busy(e.0.conn.ref) && (e in s.pending || FirstUser(Active(s, e.1), c, e.0))
  {
    OrderDistinct(order);
    var s1 := s.(unusedConns := OtherConns(s.unusedConns, c));
    if busy(e.0.conn.ref) { DroppedArePending(s1, order, c, busy, e); }
  }

  lemma OtherEvents(s: PathState, c: Connection, unused: seq<Node>, b: bool, busy: nat -> bool)
    ensures PathStep(s, CloseEverything) == s.(active := map[], pending := [], unusedConns := [])
    ensures PathStep(s, ConnOpened(c)) == s.(unusedConns := s.unusedConns + [c])
    ensures PathStep(s, NodesTaken(unused)) == s.(unusedNodes := unused) && PathStep(s, SetSuspension(b)) == s.(suspended := b)
    ensures var o := PathStep(s, RequestDone(busy));
      o == s.(pending := o.pending) && forall e :: e in o.pending <==> e in s.pending && busy(e.0.conn.ref)
  {
  }

  // ----- building -----------------------------------------------------------------------------------------------

  /** Which way a build goes, and what it leaves. */
  lemma BuildOutcomes(s: PathState, id: string, t: PathType, refill: seq<Node>)
    ensures var u, o := if |s.unusedNodes| < 3 then refill else s.unusedNodes, Build(s, id, t, refill);
      if s.suspended then BuildOutcome(s, refill) == Suspended && o == s
      else if s.unusedConns == [] then BuildOutcome(s, refill) == NoConnection && o == s
      else if |u| < 3 then BuildOutcome(s, refill) == NoNodes && o == s.(unusedNodes := u)
      else if |Ips([s.unusedConns[0].node] + u)| < 3 then BuildOutcome(s, refill) == OutOfNodes && o == s.(unusedNodes := [])
      else
        && BuildOutcome(s, refill) == Built && |Active(o, t)| == |Active(s, t)| + 1
        && Active(o, t)[|Active(s, t)|].id == id && o.suspended == s.suspended
  {
    BuildPromises(s, id, t, refill);
    if BuildOutcome(s, refill) == Built {
      var (nodes, rest) := Grow([s.unusedConns[0].node], Refilled(s, refill));
      StoredPath(s.(unusedNodes := rest, unusedConns := s.unusedConns[1..]), t, Path(id, s.unusedConns[0], nodes, 0));
    }
  }

  /** One more node: the last unused one whose IP the path does not have yet. */
  lemma {:induction false} GrowNext(nodes: seq<Node>, unused: seq<Node>) returns (p: int)
    requires |nodes| < PATH_SIZE
    ensures -1 <= p < |unused| && (forall q | p < q < |unused| :: unused[q].ip in Ips(nodes))
    ensures p >= 0 ==> unused[p].ip !in Ips(nodes) && Grow(nodes, unused) == Grow(nodes + [unused[p]], unused[..p])
    ensures p == -1 ==> Grow(nodes, unused) == (nodes, [])
    decreases |unused|
  {
    p := -1;
    if unused != [] {
      var n := |unused| - 1;
      if unused[n].ip in Ips(nodes) {
        p := GrowNext(nodes, unused[..n]);
        if p >= 0 { assert unused[..n][..p] == unused[..p]; }
      } else {
        p := n;
      }
    }
  }

  /**
   The nodes of a new path are found from the back: the second is the last unused node off the
   guard's IP, the third the last one before it off both IPs; what is left are the nodes before it
   that share no IP with the path, in order.
   */
  lemma BuiltFromTheBack(guard: Node, unused: seq<Node>) returns (i: nat, j: nat)
    requires |Grow([guard], unused).0| == PATH_SIZE
    ensures j < i < |unused| && Grow([guard], unused) == ([guard, unused[i], unused[j]], unused[..j])
    ensures unused[i].ip != guard.ip && forall q | i < q < |unused| :: unused[q].ip == guard.ip
    ensures unused[j].ip != guard.ip && unused[j].ip != unused[i].ip
    ensures forall q | j < q < i :: unused[q].ip == guard.ip || unused[q].ip == unused[i].ip
  {
    var a := GrowNext([guard], unused);
    i := a;
    var two := [guard] + [unused[i]];
    assert two == [guard, unused[i]];
    var b := GrowNext(two, unused[..i]);
    j := b;
    var three := two + [unused[j]];
    assert three == [guard, unused[i], unused[j]] && unused[..i][..j] == unused[..j] && unused[..i][j] == unused[j];
    assert Grow(three, unused[..j]) == (three, unused[..j]);
    assert Ips([guard]) == {guard.ip} by { assert guard in [guard]; }
    assert Ips(two) == {guard.ip, unused[i].ip} by { IpsAppend([guard], unused[i]); }
    forall q | j < q < i ensures unused[q].ip == guard.ip || unused[q].ip == unused[i].ip {
      assert unused[..i][q] == unused[q];
    }
  }
}
