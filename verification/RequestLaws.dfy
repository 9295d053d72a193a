/**
 What holds after every run of the request state machine
 (src/session_network.cpp:743-772, 1511-1519, 1763-1803, 1817-2105, 2424-2665).
 */
module RequestLaws {
  import opened Options
  import opened Ordering
  import opened NodeDisk
  import opened Requests

  /** The places a request can be in before it is answered. */
  datatype Spot = Queued | Flying | Scheduled | Parked | Looking

  function At(s: State, p: Spot): seq<Attempt> {
    match p
    case Queued => s.queue
    case Flying => s.inFlight
    case Scheduled => s.scheduled
    case Parked => s.waiting
    case Looking => s.refreshed
  }

  function Owner(a: Attempt): Uid {
    UserOf(a.cb)
  }

  /** How many attempts of the list are made for `u`. */
  function Count(list: seq<Attempt>, u: Uid): nat {
    if list == [] then 0 else Count(list[..|list| - 1], u) + if Owner(list[|list| - 1]) == u then 1 else 0
  }

  /** How often `u` was called back. */
  function Calls(list: seq<Answer>, u: Uid): nat {
    if list == [] then 0 else Calls(list[..|list| - 1], u) + if list[|list| - 1].uid == u then 1 else 0
  }

  /** How many places and answers `u` has. */
  function Held(s: State, u: Uid): nat {
    Count(s.queue, u) + Count(s.inFlight, u) + Count(s.scheduled, u) + Count(s.waiting, u) + Count(s.refreshed, u) + Calls(s.answers, u)
  }

  lemma {:induction false} CountConcat(a: seq<Attempt>, b: seq<Attempt>, u: Uid)
    ensures Count(a + b, u) == Count(a, u) + Count(b, u)
    decreases |b|
  {
    if b == [] {
      assert a + b == a;
    } else {
      assert (a + b)[..|a + b| - 1] == a + b[..|b| - 1];
      CountConcat(a, b[..|b| - 1], u);
    }
  }

  lemma {:induction false} CallsConcat(a: seq<Answer>, b: seq<Answer>, u: Uid)
    ensures Calls(a + b, u) == Calls(a, u) + Calls(b, u)
    decreases |b|
  {
    if b == [] {
      assert a + b == a;
    } else {
      assert (a + b)[..|a + b| - 1] == a + b[..|b| - 1];
      CallsConcat(a, b[..|b| - 1], u);
    }
  }

  lemma {:induction false} CountWithout(list: seq<Attempt>, i: nat, u: Uid)
    requires i < |list|
    ensures Count(list, u) == Count(Without(list, i), u) + if Owner(list[i]) == u then 1 else 0
  {
    var n := |list| - 1;
    if i == n {
      assert Without(list, i) == list[..n];
    } else {
      assert Without(list, i)[..n - 1] == Without(list[..n], i);
      assert Without(list, i)[n - 1] == list[n];
      CountWithout(list[..n], i, u);
    }
  }

  lemma CountAppend(list: seq<Attempt>, a: Attempt, u: Uid)
    ensures Count(list + [a], u) == Count(list, u) + if Owner(a) == u then 1 else 0
  {
    assert (list + [a])[..|list|] == list;
  }

  lemma CountHas(list: seq<Attempt>, a: Attempt)
    requires a in list
    ensures Count(list, Owner(a)) >= 1
  {
    var i :| 0 <= i < |list| && list[i] == a;
    CountWithout(list, i, Owner(a));
  }

  lemma {:induction false} KeepTaken(list: seq<Attempt>, drop: Attempt -> bool, u: Uid)
    ensures Count(Keep(list, drop), u) + Count(Taken(list, drop), u) == Count(list, u)
  {
    if list != [] {
      var front, last := list[..|list| - 1], list[|list| - 1];
      KeepTaken(front, drop, u);
      if drop(last) {
        CountAppend(Taken(front, drop), last, u);
        assert Keep(list, drop) == Keep(front, drop);
      } else {
        CountAppend(Keep(front, drop), last, u);
        assert Taken(list, drop) == Taken(front, drop);
      }
    }
  }

  lemma {:induction false} KeepTakenMembers(list: seq<Attempt>, drop: Attempt -> bool)
    ensures forall a | a in Keep(list, drop) :: a in list && !drop(a)
    ensures forall a | a in Taken(list, drop) :: a in list && drop(a)
  {
    if list != [] {
      KeepTakenMembers(list[..|list| - 1], drop);
    }
  }

  lemma {:induction false} RefusalsCall(list: seq<Attempt>, timeout: bool, status: int, u: Uid)
    ensures Calls(Refusals(list, timeout, status), u) == Count(list, u)
  {
    if list != [] {
      var front := list[..|list| - 1];
      RefusalsCall(front, timeout, status, u);
      assert Refusals(list, timeout, status)[..|list| - 1] == Refusals(front, timeout, status);
    }
  }

  // ----- the budget of re-sends ---------------------------------------------------------------------

  /** How many re-sends a handler that captured an attempt of this rank can still cause. */
  function Weight(rank: nat): nat {
    if rank == 0 then 7 else if rank == 1 then 3 else if rank == 2 then 1 else 0
  }

  function WeightOf(cb: Callback): nat {
    match cb
    case User(_) => 0
    case Wrapped(info, next) => Weight(Rank(info.retry)) + WeightOf(next)
  }

  /** The re-sends still possible for an attempt in a place. */
  function Budget(a: Attempt, p: Spot): nat {
    match p
    case Queued => 2 * Weight(Rank(a.info.retry)) + WeightOf(a.cb)
    case Scheduled => 2 * Weight(Rank(a.info.retry)) + WeightOf(a.cb)
    case Flying => Weight(Rank(a.info.retry)) + WeightOf(a.cb)
    case Parked => 1 + WeightOf(a.cb)
    case Looking => 1 + WeightOf(a.cb)
  }

  /** What the attempt looks like in that place. */
  predicate Shaped(a: Attempt, p: Spot) {
    match p
    case Queued => true
    case Scheduled => true
    case Flying => a.cb.Wrapped? && a.cb.info == a.info
    case Parked => a.info.retry == Some(Redirect) && a.info.dest.ToNode? && a.info.swarmPk.Some?
    case Looking => a.info.retry == Some(Redirect) && a.info.dest.ToNode? && a.info.swarmPk.Some?
  }

  /** Without early retries the only handler around the user's callback is the one in flight. */
  predicate Plain(a: Attempt, p: Spot) {
    if p.Flying? then a.cb.Wrapped? && a.cb.next.User? else a.cb.User?
  }

  /** An attempt whose request has been re-sent `n` times. */
  predicate Fine(a: Attempt, p: Spot, n: nat, early: bool) {
    && Shaped(a, p)
    && n + Budget(a, p) <= 14
    && (!early ==> Plain(a, p) && n <= Rank(a.info.retry))
  }

  predicate FineIn(s: State, a: Attempt, p: Spot) {
    Fine(a, p, s.resends[Owner(a)], Owner(a) in s.early)
  }

  ghost predicate AllFine(s: State, p: Spot) {
    forall a | a in At(s, p) :: FineIn(s, a, p)
  }

  ghost predicate Bounded(s: State) {
    forall u: Uid :: s.resends[u] <= 14 && (u !in s.early ==> s.resends[u] <= 3) && (u !in s.accepted ==> s.resends[u] == 0)
  }

  /** Every accepted request is in one place, or answered once, or is `loose`. */
  ghost predicate Conserved(s: State, loose: Option<Uid>) {
    forall u: Uid :: Held(s, u) + (if loose == Some(u) then 1 else 0) == if u in s.accepted then 1 else 0
  }

  /** What every state keeps; `loose` is a request being moved. */
  ghost predicate Sound(s: State, loose: Option<Uid>) {
    && Conserved(s, loose)
    && Bounded(s)
    && forall p: Spot :: AllFine(s, p)
  }

  ghost predicate Inv(s: State) {
    Sound(s, None)
  }

  /** Once a request is taken out, it is nowhere else. */
  lemma NowhereElse(s: State, u: Uid, p: Spot, a: Attempt)
    requires Sound(s, Some(u)) && a in At(s, p)
    ensures Owner(a) != u
  {
    CountHas(At(s, p), a);
    assert Held(s, u) + 1 == if u in s.accepted then 1 else 0;
  }

  // ----- moving one request ------------------------------------------------------------------------------

  function SetAt(s: State, p: Spot, list: seq<Attempt>): State {
    match p
    case Queued => s.(queue := list)
    case Flying => s.(inFlight := list)
    case Scheduled => s.(scheduled := list)
    case Parked => s.(waiting := list)
    case Looking => s.(refreshed := list)
  }

  lemma HeldSet(s: State, p: Spot, list: seq<Attempt>, u: Uid)
    ensures Held(SetAt(s, p, list), u) + Count(At(s, p), u) == Held(s, u) + Count(list, u)
  {
  }

  /** A list replaced by part of itself, or by itself and a fine attempt. */
  lemma FineSet(s: State, p: Spot, list: seq<Attempt>)
    requires forall q: Spot :: AllFine(s, q)
    requires forall a | a in list :: FineIn(s, a, p)
    ensures forall q: Spot :: AllFine(SetAt(s, p, list), q)
  {
    var t := SetAt(s, p, list);
    forall q: Spot ensures AllFine(t, q) {
      assert AllFine(s, q);
      assert At(t, q) == if q == p then list else At(s, q);
      assert forall a | a in At(t, q) :: FineIn(t, a, q) == FineIn(s, a, q);
    }
  }

  lemma TakeOut(s: State, p: Spot, i: nat)
    requires Inv(s) && i < |At(s, p)|
    ensures Sound(SetAt(s, p, Without(At(s, p), i)), Some(Owner(At(s, p)[i])))
    ensures FineIn(s, At(s, p)[i], p)
  {
    var list, a := Without(At(s, p), i), At(s, p)[i];
    var t := SetAt(s, p, list);
    forall u: Uid ensures Held(t, u) + (if Some(Owner(a)) == Some(u) then 1 else 0) == if u in t.accepted then 1 else 0 {
      CountWithout(At(s, p), i, u);
      HeldSet(s, p, list, u);
      assert Held(s, u) == if u in s.accepted then 1 else 0;
    }
    assert AllFine(s, p) && a in At(s, p);
    assert forall b | b in list :: b in At(s, p);
    FineSet(s, p, list);
    SetBounded(s, p, list);
  }

  /** `s` after its history of `u` has changed. */
  function Marked(s: State, u: Uid, again: bool, early: bool): State {
    s.(resends := if again then s.resends + multiset{u} else s.resends,
       early := if early then s.early + {u} else s.early)
  }

  lemma MarkLeavesOthers(s: State, u: Uid, again: bool, early: bool)
    requires Sound(s, Some(u))
    ensures forall p: Spot :: AllFine(Marked(s, u, again, early), p)
    ensures u in s.accepted
  {
    var t := Marked(s, u, again, early);
    forall p: Spot ensures AllFine(t, p) {
      forall a | a in At(t, p) ensures FineIn(t, a, p) {
        assert AllFine(s, p) && a in At(s, p) && FineIn(s, a, p);
        NowhereElse(s, u, p, a);
      }
    }
    assert Held(s, u) + 1 == if u in s.accepted then 1 else 0;
  }

  lemma PutConserves(s: State, p: Spot, a: Attempt)
    requires Conserved(s, Some(Owner(a)))
    ensures Conserved(SetAt(s, p, At(s, p) + [a]), None)
  {
    var t := SetAt(s, p, At(s, p) + [a]);
    forall u: Uid ensures Held(t, u) == if u in t.accepted then 1 else 0 {
      CountAppend(At(s, p), a, u);
      HeldSet(s, p, At(s, p) + [a], u);
      assert Held(s, u) + (if Some(Owner(a)) == Some(u) then 1 else 0) == if u in s.accepted then 1 else 0;
    }
  }

  lemma MarkConserves(s: State, u: Uid, again: bool, early: bool, loose: Option<Uid>)
    requires Conserved(s, loose)
    ensures Conserved(Marked(s, u, again, early), loose)
  {
    var m := Marked(s, u, again, early);
    assert forall v: Uid :: Held(m, v) == Held(s, v);
  }

  lemma MarkBounded(s: State, u: Uid, again: bool, early: bool)
    requires Bounded(s) && u in s.accepted
    requires s.resends[u] + (if again then 1 else 0) <= 14
    requires u !in s.early && !early ==> s.resends[u] + (if again then 1 else 0) <= 3
    ensures Bounded(Marked(s, u, again, early))
  {
  }

  lemma SetBounded(s: State, p: Spot, list: seq<Attempt>)
    requires Bounded(s)
    ensures Bounded(SetAt(s, p, list))
  {
    var t := SetAt(s, p, list);
    assert t.resends == s.resends && t.early == s.early && t.accepted == s.accepted;
  }

  lemma MarkSound(s: State, u: Uid, again: bool, early: bool)
    requires Sound(s, Some(u))
    requires s.resends[u] + (if again then 1 else 0) <= 14
    requires u !in s.early && !early ==> s.resends[u] + (if again then 1 else 0) <= 3
    ensures Sound(Marked(s, u, again, early), Some(u))
  {
    MarkLeavesOthers(s, u, again, early);
    MarkConserves(s, u, again, early, Some(u));
    MarkBounded(s, u, again, early);
  }

  lemma PutSound(s: State, p: Spot, a: Attempt)
    requires Sound(s, Some(Owner(a))) && FineIn(s, a, p)
    ensures Inv(SetAt(s, p, At(s, p) + [a]))
  {
    PutConserves(s, p, a);
    assert AllFine(s, p);
    FineSet(s, p, At(s, p) + [a]);
    SetBounded(s, p, At(s, p) + [a]);
  }

  lemma PutIn(s: State, p: Spot, a: Attempt, again: bool, early: bool)
    requires Sound(s, Some(Owner(a)))
    requires Fine(a, p, s.resends[Owner(a)] + if again then 1 else 0, Owner(a) in s.early || early)
    ensures Inv(SetAt(Marked(s, Owner(a), again, early), p, At(s, p) + [a]))
  {
    var m := Marked(s, Owner(a), again, early);
    MarkSound(s, Owner(a), again, early);
    assert At(m, p) == At(s, p) && FineIn(m, a, p);
    PutSound(m, p, a);
  }

  lemma PutAnswer(s: State, a: Answer)
    requires Sound(s, Some(a.uid))
    ensures Inv(s.(answers := s.answers + [a]))
  {
    var t := s.(answers := s.answers + [a]);
    assert t.answers[..|s.answers|] == s.answers;
    forall u: Uid ensures Held(t, u) == if u in t.accepted then 1 else 0 {
      assert Held(s, u) + (if Some(a.uid) == Some(u) then 1 else 0) == if u in s.accepted then 1 else 0;
    }
    forall q: Spot ensures AllFine(t, q) {
      assert AllFine(s, q);
      assert forall b | b in At(t, q) :: FineIn(s, b, q) ==> FineIn(t, b, q);
    }
  }

  // ----- every event keeps the invariant -----------------------------------------------------------------

  /** A failure passes through every response handler to the user. */
  lemma {:induction false} RefusalReachesUser(s: State, cb: Callback, timeout: bool, status: int, procs: seq<Processed>)
    ensures Place(s, Deliver(cb, Reply(false, timeout, status), procs)) == Refuse(s, cb, timeout, status)
    decreases cb
  {
    if cb.Wrapped? {
      RefusalReachesUser(s, cb.next, timeout, status, procs);
    }
  }

  function UserOfDelivery(d: Delivery): Uid {
    match d
    case Answered(a) => a.uid
    case Resent(a) => Owner(a)
    case Waiting(a) => Owner(a)
  }

  /** A delivery stays with its request, spends the budget of the handlers it passed, and raises the rank. */
  lemma {:induction false} DeliverFits(cb: Callback, reply: Reply, procs: seq<Processed>)
    ensures var d := Deliver(cb, reply, procs);
      && UserOfDelivery(d) == UserOf(cb)
      && (d.Resent? ==> 1 + Budget(d.attempt, Scheduled) <= WeightOf(cb))
      && (d.Waiting? ==> Shaped(d.attempt, Parked) && Budget(d.attempt, Parked) <= WeightOf(cb))
      && (cb.Wrapped? && cb.next.User? && d.Resent? ==> d.attempt.cb.User? && Rank(cb.info.retry) < Rank(d.attempt.info.retry))
      && (cb.Wrapped? && cb.next.User? && d.Waiting? ==> d.attempt.cb.User? && d.attempt.info == cb.info)
    decreases cb
  {
    if cb.Wrapped? {
      if reply.success && !reply.timeout && procs != [] {
        if procs[0].Decrypted? {
          DeliverFits(cb.next, Reply(true, false, procs[0].status), procs[1..]);
        } else {
          var f := procs[0].failure.(timeout := false);
          JudgeRaisesRank(cb.info, f);
          if Judge(cb.info, f).Fail? {
            DeliverFits(cb.next, Judge(cb.info, f).reply, procs[1..]);
          }
        }
      } else {
        DeliverFits(cb.next, reply, procs);
      }
    }
  }

  lemma PlaceKeeps(s: State, a: Attempt, reply: Reply, procs: seq<Processed>)
    requires Sound(s, Some(Owner(a))) && FineIn(s, a, Flying)
    ensures Inv(Place(s, Deliver(a.cb, reply, procs)))
  {
    DeliverFits(a.cb, reply, procs);
    match Deliver(a.cb, reply, procs)
    case Answered(w) => PutAnswer(s, w);
    case Resent(b) => PutIn(s, Scheduled, b, true, false);
    case Waiting(b) => PutIn(s, Parked, b, false, false);
  }

  lemma RetryKeeps(s: State, a: Attempt, f: Failure)
    requires Sound(s, Some(Owner(a))) && FineIn(s, a, Flying) && Judge(a.info, f).Retry?
    ensures Inv(Place(s, Resent(Attempt(Judge(a.info, f).info, a.cb))).(early := s.early + {Owner(a)}))
  {
    JudgeRaisesRank(a.info, f);
    var b := Attempt(Judge(a.info, f).info, a.cb);
    assert 1 + Budget(b, Scheduled) <= Budget(a, Flying);
    PutIn(s, Scheduled, b, true, true);
  }

  lemma AwaitKeeps(s: State, a: Attempt, f: Failure)
    requires Sound(s, Some(Owner(a))) && FineIn(s, a, Flying) && Judge(a.info, f).AwaitRefresh?
    ensures Inv(Place(s, Waiting(a)).(early := s.early + {Owner(a)}))
  {
    JudgeRaisesRank(a.info, f);
    PutIn(s, Parked, a, false, true);
  }

  lemma ReceiveKeeps(s: State, a: Attempt, arrival: Arrival, procs: seq<Processed>)
    requires Sound(s, Some(Owner(a))) && FineIn(s, a, Flying)
    ensures Inv(Receive(s, a, arrival, procs))
  {
    match arrival
    case Arrived(status) => PlaceKeeps(s, a, Reply(true, false, status), procs);
    case Rejected(f) =>
      match Judge(a.info, f)
      case Retry(_) => RetryKeeps(s, a, f);
      case AwaitRefresh(_) => AwaitKeeps(s, a, f);
      case Fail(r) => PlaceKeeps(s, a, r, procs);
  }

  lemma SendKeeps(s: State, a: Attempt, sending: Sending)
    requires Sound(s, Some(Owner(a))) && FineIn(s, a, Scheduled)
    ensures Inv(Send(s, a, sending))
  {
    match sending
    case NoPath =>
      if s.suspended {
        PutAnswer(s, Answer(Owner(a), Reply(false, false, ERROR_NETWORK_SUSPENDED)));
      } else {
        PutIn(s, Queued, a, false, false);
      }
    case BuilderFails => PutAnswer(s, Answer(Owner(a), Reply(false, false, ERROR_BUILDING_ONION_REQUEST)));
    case ConnectionInvalid => PutAnswer(s, Answer(Owner(a), Reply(false, false, -1)));
    case PastDeadline => PutAnswer(s, Answer(Owner(a), Reply(false, true, ERROR_PATH_BUILD_TIMEOUT)));
    case OnItsWay => PutIn(s, Flying, Attempt(a.info, Wrapped(a.info, a.cb)), false, false);
  }

  /** A new request is loose until it is sent. */
  lemma AcceptLoosens(s: State, u: Uid)
    requires Inv(s) && u !in s.accepted
    ensures Sound(s.(accepted := s.accepted + {u}), Some(u)) && s.resends[u] == 0
  {
    var t := s.(accepted := s.accepted + {u});
    forall v: Uid ensures Held(t, v) + (if Some(u) == Some(v) then 1 else 0) == if v in t.accepted then 1 else 0 {
      assert Held(s, v) == if v in s.accepted then 1 else 0;
    }
    assert forall p: Spot :: At(t, p) == At(s, p);
    assert forall p: Spot, a | a in At(s, p) :: AllFine(s, p) && FineIn(s, a, p) ==> FineIn(t, a, p);
  }

  /** Moving part of the queue into the answers. */
  lemma RefuseQueued(s: State, keep: seq<Attempt>, gone: seq<Attempt>, timeout: bool, status: int)
    requires Inv(s)
    requires forall a | a in keep :: a in s.queue
    requires forall u: Uid :: Count(keep, u) + Count(gone, u) == Count(s.queue, u)
    ensures Inv(s.(queue := keep, answers := s.answers + Refusals(gone, timeout, status)))
  {
    var r := s.(answers := s.answers + Refusals(gone, timeout, status));
    var t := SetAt(r, Queued, keep);
    forall u: Uid ensures Held(t, u) == if u in t.accepted then 1 else 0 {
      RefusalsCall(gone, timeout, status, u);
      CallsConcat(s.answers, Refusals(gone, timeout, status), u);
      assert Held(s, u) == if u in s.accepted then 1 else 0;
      HeldSet(r, Queued, keep, u);
    }
    assert AllFine(s, Queued);
    forall p: Spot ensures AllFine(r, p) {
      assert AllFine(s, p) && At(r, p) == At(s, p);
      assert forall a | a in At(s, p) :: FineIn(s, a, p) ==> FineIn(r, a, p);
    }
    assert forall a | a in keep :: FineIn(s, a, Queued) && FineIn(r, a, Queued);
    FineSet(r, Queued, keep);
  }

  lemma MoveConserves(s: State, p: Spot, q: Spot, keep: seq<Attempt>, gone: seq<Attempt>)
    requires Conserved(s, None) && p != q
    requires forall u: Uid :: Count(keep, u) + Count(gone, u) == Count(At(s, p), u)
    ensures Conserved(SetAt(SetAt(s, p, keep), q, At(s, q) + gone), None)
  {
    var r := SetAt(s, p, keep);
    var t := SetAt(r, q, At(s, q) + gone);
    assert At(r, q) == At(s, q);
    forall u: Uid ensures Held(t, u) == if u in t.accepted then 1 else 0 {
      CountConcat(At(s, q), gone, u);
      HeldSet(s, p, keep, u);
      HeldSet(r, q, At(s, q) + gone, u);
      assert Held(s, u) == if u in s.accepted then 1 else 0;
    }
  }

  /** Moving part of one list to the end of another. */
  lemma MoveKeeps(s: State, p: Spot, q: Spot, keep: seq<Attempt>, gone: seq<Attempt>)
    requires Inv(s) && p != q
    requires forall a | a in keep :: a in At(s, p)
    requires forall a | a in gone :: a in At(s, p)
    requires forall a | FineIn(s, a, p) :: FineIn(s, a, q)
    requires forall u: Uid :: Count(keep, u) + Count(gone, u) == Count(At(s, p), u)
    ensures Inv(SetAt(SetAt(s, p, keep), q, At(s, q) + gone))
  {
    var r := SetAt(s, p, keep);
    var t := SetAt(r, q, At(s, q) + gone);
    assert At(r, q) == At(s, q);
    MoveConserves(s, p, q, keep, gone);
    assert AllFine(s, p) && AllFine(s, q);
    FineSet(s, p, keep);
    assert forall a :: FineIn(r, a, q) == FineIn(s, a, q);
    FineSet(r, q, At(s, q) + gone);
    SetBounded(s, p, keep);
    SetBounded(r, q, At(s, q) + gone);
  }

  lemma SplitQueueKeeps(s: State, drop: Attempt -> bool)
    requires Inv(s)
    ensures Inv(s.(queue := Keep(s.queue, drop), answers := s.answers + Refusals(Taken(s.queue, drop), true, ERROR_PATH_BUILD_TIMEOUT)))
    ensures Inv(s.(queue := Keep(s.queue, drop), scheduled := s.scheduled + Taken(s.queue, drop)))
  {
    KeepTakenMembers(s.queue, drop);
    forall u: Uid ensures Count(Keep(s.queue, drop), u) + Count(Taken(s.queue, drop), u) == Count(s.queue, u) {
      KeepTaken(s.queue, drop, u);
    }
    RefuseQueued(s, Keep(s.queue, drop), Taken(s.queue, drop), true, ERROR_PATH_BUILD_TIMEOUT);
    MoveKeeps(s, Queued, Scheduled, Keep(s.queue, drop), Taken(s.queue, drop));
  }

  lemma RetryRefreshedKeeps(s: State, a: Attempt, dest: Node)
    requires Sound(s, Some(Owner(a))) && FineIn(s, a, Looking)
    ensures Inv(Place(s, Resent(Attempt(a.info.(dest := ToNode(dest), retry := Some(SwarmRefresh)), a.cb))))
  {
    PutIn(s, Scheduled, Attempt(a.info.(dest := ToNode(dest), retry := Some(SwarmRefresh)), a.cb), true, false);
  }

  lemma RefreshedKeeps(s: State, i: nat, swarm: Option<seq<Node>>, pick: nat)
    requires Inv(s)
    ensures Inv(Step(s, RunRefreshed(i, swarm, pick)))
  {
    if i < |s.refreshed| {
      var a := s.refreshed[i];
      var s1 := SetAt(s, Looking, Without(s.refreshed, i));
      TakeOut(s, Looking, i);
      assert FineIn(s1, a, Looking);
      if swarm.None? {
        PutIn(s1, Parked, a, false, false);
      } else {
        var others := Others(swarm.value, a.info.dest.node);
        if others == [] {
          PutAnswer(s1, Answer(Owner(a), Reply(false, false, 421)));
        } else {
          RetryRefreshedKeeps(s1, a, others[pick % |others|]);
        }
      }
    }
  }

  lemma SubmitKeeps(s: State, u: Uid, info: Info, sending: Sending)
    requires Inv(s)
    ensures Inv(Step(s, Submit(u, info, sending)))
  {
    if u !in s.accepted && info.retry.None? {
      AcceptLoosens(s, u);
      SendKeeps(s.(accepted := s.accepted + {u}), Attempt(info, User(u)), sending);
    }
  }

  lemma ScheduledKeeps(s: State, i: nat, sending: Sending)
    requires Inv(s)
    ensures Inv(Step(s, RunScheduled(i, sending)))
  {
    if i < |s.scheduled| {
      TakeOut(s, Scheduled, i);
      SendKeeps(SetAt(s, Scheduled, Without(s.scheduled, i)), s.scheduled[i], sending);
    }
  }

  lemma RespondKeeps(s: State, i: nat, arrival: Arrival, procs: seq<Processed>)
    requires Inv(s)
    ensures Inv(Step(s, Respond(i, arrival, procs)))
  {
    if i < |s.inFlight| {
      TakeOut(s, Flying, i);
      ReceiveKeeps(SetAt(s, Flying, Without(s.inFlight, i)), s.inFlight[i], arrival, procs);
    }
  }

  lemma TimeoutsKeep(s: State, now: int)
    requires Inv(s)
    ensures Inv(Step(s, CheckTimeouts(now)))
  {
    SplitQueueKeeps(s, ExpiredAt(now));
  }

  lemma PathBuiltKeeps(s: State, t: PathType, fits: Info -> bool)
    requires Inv(s)
    ensures Inv(Step(s, PathBuilt(t, fits)))
  {
    SplitQueueKeeps(s, Resumes(t, fits));
  }

  lemma CloseKeeps(s: State)
    requires Inv(s)
    ensures Inv(Step(s, CloseConnections))
  {
    RefuseQueued(s, [], s.queue, false, ERROR_NETWORK_SUSPENDED);
  }

  lemma CompleteKeeps(s: State)
    requires Inv(s)
    ensures Inv(Step(s, RefreshComplete))
  {
    MoveKeeps(s, Parked, Looking, [], s.waiting);
  }

  lemma SuspendKeeps(s: State, b: bool)
    requires Inv(s)
    ensures Inv(s.(suspended := b))
  {
    var t := s.(suspended := b);
    forall u: Uid ensures Held(t, u) == if u in t.accepted then 1 else 0 {
      assert Held(s, u) == if u in s.accepted then 1 else 0;
    }
    forall p: Spot ensures AllFine(t, p) {
      assert AllFine(s, p) && At(t, p) == At(s, p);
      assert forall a | a in At(s, p) :: FineIn(s, a, p) ==> FineIn(t, a, p);
    }
  }

  lemma StepKeeps(s: State, e: Event)
    requires Inv(s)
    ensures Inv(Step(s, e))
  {
    match e
    case Submit(u, info, sending) => SubmitKeeps(s, u, info, sending);
    case RunScheduled(i, sending) => ScheduledKeeps(s, i, sending);
    case Respond(i, arrival, procs) => RespondKeeps(s, i, arrival, procs);
    case CheckTimeouts(now) => TimeoutsKeep(s, now);
    case PathBuilt(t, fits) => PathBuiltKeeps(s, t, fits);
    case CloseConnections => CloseKeeps(s);
    case SetSuspended(b) => SuspendKeeps(s, b);
    case RefreshComplete => CompleteKeeps(s);
    case RunRefreshed(i, swarm, pick) => RefreshedKeeps(s, i, swarm, pick);
  }

  lemma {:induction false} RunKeeps(events: seq<Event>)
    ensures Inv(Run(events))
    decreases |events|
  {
    if events == [] {
      assert forall u: Uid :: Held(INIT, u) == 0;
    } else {
      RunKeeps(events[..|events| - 1]);
      StepKeeps(Run(events[..|events| - 1]), events[|events| - 1]);
    }
  }

  // ----- what that means for every run ---------------------------------------------------------------------

  /** An accepted request is in exactly one place or answered exactly once; no other request is anywhere. */
  lemma RequestConservation(events: seq<Event>, u: Uid)
    ensures Held(Run(events), u) == if u in Run(events).accepted then 1 else 0
    ensures Calls(Run(events).answers, u) <= 1
    ensures Calls(Run(events).answers, u) == 1 ==> forall p: Spot :: Count(At(Run(events), p), u) == 0
  {
    RunKeeps(events);
    assert Conserved(Run(events), None);
  }

  /** At most fourteen automatic re-sends, and at most three when every retry came after decryption. */
  lemma BoundedRetries(events: seq<Event>, u: Uid)
    ensures Run(events).resends[u] <= 14
    ensures u !in Run(events).early ==> Run(events).resends[u] <= 3
  {
    RunKeeps(events);
    assert Bounded(Run(events));
  }

  /** On the way to the user `cb` passes the handler of attempt `i`, which calls `next`. */
  predicate HasHandler(cb: Callback, i: Info, next: Callback) {
    cb.Wrapped? && ((cb.info == i && cb.next == next) || HasHandler(cb.next, i, next))
  }

  /** `b` is attempt `i` again: only target and reason differ, and its rank is higher. */
  predicate Retries(b: Info, i: Info) {
    b == i.(dest := b.dest, retry := b.retry) && Rank(i.retry) < Rank(b.retry)
  }

  /**
   What the re-send `b` replaces when `a` is answered: `a` itself, when it is caught before its
   handler is called, and else the attempt of the handler that could not read the answer, whose
   own callback `b` then has.
   */
  ghost predicate Replaces(a: Attempt, b: Attempt) {
    && Owner(a) == Owner(b)
    && ((b.cb == a.cb && Retries(b.info, a.info)) || exists i: Info :: HasHandler(a.cb, i, b.cb) && Retries(b.info, i))
  }

  lemma JudgeRetries(info: Info, f: Failure)
    requires Judge(info, f).Retry?
    ensures Retries(Judge(info, f).info, info)
  {
    JudgeRaisesRank(info, f);
  }

  lemma {:induction false} DeliverReplaces(cb: Callback, reply: Reply, procs: seq<Processed>) returns (i: Info)
    requires Deliver(cb, reply, procs).Resent?
    ensures var b := Deliver(cb, reply, procs).attempt;
      UserOf(cb) == Owner(b) && HasHandler(cb, i, b.cb) && Retries(b.info, i)
    decreases cb
  {
    if !reply.success || reply.timeout || procs == [] {
      i := DeliverReplaces(cb.next, reply, procs);
    } else if procs[0].Decrypted? {
      i := DeliverReplaces(cb.next, Reply(true, false, procs[0].status), procs[1..]);
    } else {
      var f := procs[0].failure.(timeout := false);
      if Judge(cb.info, f).Fail? {
        i := DeliverReplaces(cb.next, Judge(cb.info, f).reply, procs[1..]);
      } else {
        JudgeRetries(cb.info, f);
        i := cb.info;
      }
    }
  }

  /** The step took one attempt out and scheduled one that replaces it or an attempt it stands for. */
  ghost predicate Resends(s: State, e: Event, t: State) {
    && |t.scheduled| == |s.scheduled| + 1 && t.scheduled[..|s.scheduled|] == s.scheduled
    && var b := t.scheduled[|s.scheduled|];
    && t.resends == s.resends + multiset{Owner(b)}
    && match e
       case Respond(i, _, _) => i < |s.inFlight| && t.inFlight == Without(s.inFlight, i) && Replaces(s.inFlight[i], b)
       case RunRefreshed(i, _, _) =>
         && i < |s.refreshed| && t.refreshed == Without(s.refreshed, i)
         && b.cb == s.refreshed[i].cb && Retries(b.info, s.refreshed[i].info)
       case _ => false
  }

  lemma RespondResends(s: State, i: nat, arrival: Arrival, procs: seq<Processed>)
    requires Step(s, Respond(i, arrival, procs)).resends != s.resends
    ensures Resends(s, Respond(i, arrival, procs), Step(s, Respond(i, arrival, procs)))
  {
    var a := s.inFlight[i];
    if arrival.Arrived? {
      var h := DeliverReplaces(a.cb, Reply(true, false, arrival.status), procs);
    } else if Judge(a.info, arrival.failure).Fail? {
      var h := DeliverReplaces(a.cb, Judge(a.info, arrival.failure).reply, procs);
    } else {
      JudgeRetries(a.info, arrival.failure);
    }
  }

  /** The last retry goes to a node of the new swarm other than the one that answered 421. */
  lemma RefreshResends(s: State, i: nat, swarm: Option<seq<Node>>, pick: nat)
    requires Inv(s) && Step(s, RunRefreshed(i, swarm, pick)).resends != s.resends
    ensures Resends(s, RunRefreshed(i, swarm, pick), Step(s, RunRefreshed(i, swarm, pick)))
    ensures i < |s.refreshed| && s.refreshed[i].info.dest.ToNode? && swarm.Some?
    ensures var b := Step(s, RunRefreshed(i, swarm, pick)).scheduled[|s.scheduled|];
      b.info.dest.ToNode? && b.info.dest.node in swarm.value && b.info.dest.node != s.refreshed[i].info.dest.node
  {
    var a := s.refreshed[i];
    assert AllFine(s, Looking) && a in At(s, Looking);
    assert FineIn(s, a, Looking);
    var others := Others(swarm.value, a.info.dest.node);
    assert others[pick % |others|] in others;
  }

  /**
   Every step that counts a re-send takes one attempt out and schedules one: the same request
   with the callback of the attempt it replaces, and of strictly higher rank.
   */
  lemma ResendRaisesRank(s: State, e: Event)
    requires Inv(s) && Step(s, e).resends != s.resends
    ensures Resends(s, e, Step(s, e))
  {
    match e {
      case Respond(i, arrival, procs) => RespondResends(s, i, arrival, procs);
      case RunRefreshed(i, swarm, pick) => RefreshResends(s, i, swarm, pick);
      case _ =>
    }
  }
}
