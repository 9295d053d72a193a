/**
 The bounds on automatic re-sends are reached (src/session_network.cpp:1864-1882, 2444-2650).
 */
module RequestBounds {
  import opened Options
  import opened NodeDisk
  import opened Requests
  import opened RequestLaws

  /** A request for a node's swarm. */
  predicate Ready(info: Info, rank: nat) {
    info.dest.ToNode? && info.swarmPk.Some? && Rank(info.retry) == rank
  }

  /** Handlers around user 0, outermost first, that captured attempts of these ranks. */
  predicate Chain(cb: Callback, ranks: seq<nat>) {
    match cb
    case User(u) => u == 0 && ranks == []
    case Wrapped(info, next) => ranks != [] && Ready(info, ranks[0]) && Chain(next, ranks[1..])
  }

  /** Request 0 is the only one, about to be sent, after `n` re-sends. */
  ghost predicate Alone(s: State, rank: nat, ranks: seq<nat>, n: nat, early: bool) {
    && s.queue == s.inFlight == s.waiting == s.refreshed == [] && s.answers == []
    && |s.scheduled| == 1 && Ready(s.scheduled[0].info, rank) && Chain(s.scheduled[0].cb, ranks)
    && s.resends[0] == n && !s.suspended && (early || 0 !in s.early)
  }

  /** What the source can meet: nodes with keys of 32 bytes, and failures with the text of an exception. */
  predicate RealFailure(f: Failure) {
    f.response.Some? && AllTyped(f.swarm)
  }

  predicate RealAnswers(procs: seq<Processed>) {
    forall i | 0 <= i < |procs| :: procs[i].Broken? ==> RealFailure(procs[i].failure)
  }

  predicate Real(e: Event) {
    match e
    case Submit(_, info, _) => info.dest.ToNode? ==> WellTyped(info.dest.node)
    case Respond(_, arrival, procs) =>
      (arrival.Rejected? ==> RealFailure(arrival.failure)) && RealAnswers(procs)
    case RunRefreshed(_, swarm, _) => swarm.Some? ==> AllTyped(swarm.value)
    case _ => true
  }

  predicate RealRun(events: seq<Event>) {
    forall i | 0 <= i < |events| :: Real(events[i])
  }

  ghost predicate Attained(events: seq<Event>, rank: nat, ranks: seq<nat>, n: nat, early: bool) {
    RealRun(events) && Alone(Run(events), rank, ranks, n, early)
  }

  ghost predicate Reached(rank: nat, ranks: seq<nat>, n: nat, early: bool) {
    exists events: seq<Event> :: Attained(events, rank, ranks, n, early)
  }

  lemma RunMore(events: seq<Event>, e: Event)
    requires Real(e)
    ensures Run(events + [e]) == Step(Run(events), e)
    ensures RealRun(events) ==> RealRun(events + [e])
  {
    assert (events + [e])[..|events|] == events;
  }

  const A := Node(KeyOf(1), [2, 8], 1, "10.0.0.1", 22021)
  const B := Node(KeyOf(2), [2, 8], 1, "10.0.0.2", 22021)

  /** The failure that makes an attempt of this rank be retried. */
  function Bad(rank: nat): Failure {
    if rank == 0 then Failure(false, -1, Some(DECRYPTION_FAILED), [A, B], 0) else Failure(false, 421, Some(""), [A, B], 0)
  }

  lemma BadIsReal(rank: nat)
    ensures WellTyped(A) && WellTyped(B) && RealFailure(Bad(rank))
    ensures Real(RunRefreshed(0, Some([A, B]), 0)) && Real(Respond(0, Rejected(Bad(rank)), []))
    ensures Real(Respond(0, Arrived(200), [Broken(Bad(rank))])) && Real(Respond(0, Arrived(200), [Decrypted(200), Broken(Bad(rank))]))
  {
  }

  lemma OthersOfTwo(n: Node)
    ensures Others([A, B], n) != []
  {
    assert A in [A, B] && B in [A, B] && A.pubkey[0] != B.pubkey[0];
  }

  /** The state after the only request was sent. */
  lemma Fly(events: seq<Event>, rank: nat, ranks: seq<nat>, n: nat, early: bool) returns (more: seq<Event>)
    requires Attained(events, rank, ranks, n, early)
    ensures RealRun(more)
    ensures var s := Run(events); var a := s.scheduled[0];
      Run(more) == s.(scheduled := [], inFlight := [Attempt(a.info, Wrapped(a.info, a.cb))])
  {
    more := events + [RunScheduled(0, OnItsWay)];
    RunMore(events, RunScheduled(0, OnItsWay));
  }

  /** The state of the only request after a failure of its kind. */
  ghost predicate Struck(s: State, a: Attempt, n: nat, early: bool) {
    && s.queue == s.inFlight == s.refreshed == [] && s.answers == [] && !s.suspended && (early || 0 !in s.early)
    && if a.info.retry == Some(Redirect) then s.scheduled == [] && s.waiting == [a] && s.resends[0] == n
       else s.waiting == [] && |s.scheduled| == 1 && s.scheduled[0].cb == a.cb && s.resends[0] == n + 1
            && Ready(s.scheduled[0].info, Rank(a.info.retry) + 1)
  }

  lemma LookKeepsAlone(s: State, a: Attempt, ranks: seq<nat>, n: nat, early: bool)
    requires s.queue == s.inFlight == s.scheduled == s.waiting == [] && s.answers == [] && s.refreshed == [a]
    requires s.resends[0] == n && !s.suspended && (early || 0 !in s.early)
    requires Ready(a.info, 2) && Chain(a.cb, ranks) && UserOf(a.cb) == 0
    ensures Alone(Step(s, RunRefreshed(0, Some([A, B]), 0)), 3, ranks, n + 1, early)
  {
    OthersOfTwo(a.info.dest.node);
  }

  lemma RecoverParked(events: seq<Event>, a: Attempt, ranks: seq<nat>, n: nat, early: bool)
    requires RealRun(events) && Struck(Run(events), a, n, early) && Ready(a.info, 2) && Chain(a.cb, ranks)
    ensures Reached(3, ranks, n + 1, early)
  {
    var e1 := events + [RefreshComplete];
    var look := RunRefreshed(0, Some([A, B]), 0);
    BadIsReal(2);
    RunMore(events, RefreshComplete);
    RunMore(e1, look);
    ChainUser(a.cb, ranks);
    LookKeepsAlone(Run(e1), a, ranks, n, early);
    assert Attained(e1 + [look], 3, ranks, n + 1, early);
  }

  /** From there the request reaches its next rank. */
  lemma Recover(events: seq<Event>, a: Attempt, ranks: seq<nat>, n: nat, early: bool)
    requires RealRun(events) && Struck(Run(events), a, n, early) && Ready(a.info, Rank(a.info.retry)) && Chain(a.cb, ranks)
    ensures Reached(Rank(a.info.retry) + 1, ranks, n + 1, early)
  {
    if a.info.retry == Some(Redirect) {
      RecoverParked(events, a, ranks, n, early);
    } else {
      assert Attained(events, Rank(a.info.retry) + 1, ranks, n + 1, early);
    }
  }

  lemma {:induction false} ChainUser(cb: Callback, ranks: seq<nat>)
    requires Chain(cb, ranks)
    ensures UserOf(cb) == 0
    decreases cb
  {
    if cb.Wrapped? {
      ChainUser(cb.next, ranks[1..]);
    }
  }

  lemma Judged(info: Info, rank: nat)
    requires Ready(info, rank) && rank < 3
    ensures Bad(rank).(timeout := false) == Bad(rank)
    ensures var v := Judge(info, Bad(rank)); if rank == 2 then v.AwaitRefresh? else v.Retry? && Ready(v.info, rank + 1)
  {
    OthersOfTwo(info.dest.node);
  }

  lemma RefusedStruck(s: State, a: Attempt, rank: nat, n: nat)
    requires s.queue == s.scheduled == s.waiting == s.refreshed == [] && s.answers == [] && s.inFlight == [a]
    requires s.resends[0] == n && !s.suspended && Ready(a.info, rank) && rank < 3 && UserOf(a.cb) == 0
    ensures Struck(Step(s, Respond(0, Rejected(Bad(rank)), [])), a, n, true)
  {
    Judged(a.info, rank);
  }

  /** A failure before decryption is retried behind one more handler. */
  lemma Climb(rank: nat, ranks: seq<nat>, n: nat, more: seq<nat>)
    requires Reached(rank, ranks, n, true) && rank < 3 && more == [rank] + ranks
    ensures Reached(rank + 1, more, n + 1, true)
  {
    var events: seq<Event> :| Attained(events, rank, ranks, n, true);
    var a := Run(events).scheduled[0];
    var flown := Fly(events, rank, ranks, n, true);
    var f := Attempt(a.info, Wrapped(a.info, a.cb));
    var e := Respond(0, Rejected(Bad(rank)), []);
    BadIsReal(rank);
    RunMore(flown, e);
    assert more[1..] == ranks;
    ChainUser(f.cb, more);
    RefusedStruck(Run(flown), f, rank, n);
    Recover(flown + [e], f, more, n, true);
  }

  /** What a callback makes of a success that its outermost handler cannot read. */
  lemma Unread(info: Info, next: Callback, rank: nat)
    requires Ready(info, rank) && rank < 3
    ensures var d := Deliver(Wrapped(info, next), Reply(true, false, 200), [Broken(Bad(rank))]);
      if rank == 2 then d == Waiting(Attempt(info, next)) else d.Resent? && d.attempt.cb == next && Ready(d.attempt.info, rank + 1)
  {
    Judged(info, rank);
  }

  lemma UnreadSecond(info: Info, cb: Callback, p: Processed)
    ensures Deliver(Wrapped(info, cb), Reply(true, false, 200), [Decrypted(200), p]) == Deliver(cb, Reply(true, false, 200), [p])
  {
    assert [Decrypted(200), p][1..] == [p];
  }

  /** The answer reached the handler of `f`, which could not read it. */
  ghost predicate Unreadable(cb: Callback, procs: seq<Processed>, f: Attempt, rank: nat) {
    var d := Deliver(cb, Reply(true, false, 200), procs);
    if rank == 2 then d == Waiting(f) else d.Resent? && d.attempt.cb == f.cb && Ready(d.attempt.info, rank + 1)
  }

  lemma UnreadStruck(s: State, g: Attempt, f: Attempt, rank: nat, n: nat, early: bool, procs: seq<Processed>)
    requires s.queue == s.scheduled == s.waiting == s.refreshed == [] && s.answers == [] && s.inFlight == [g]
    requires s.resends[0] == n && !s.suspended && (early || 0 !in s.early)
    requires UserOf(f.cb) == 0 && Rank(f.info.retry) == rank < 3 && Unreadable(g.cb, procs, f, rank)
    ensures Struck(Step(s, Respond(0, Arrived(200), procs)), f, n, early)
  {
  }

  /** A success that the next handler cannot read is retried by that handler. */
  lemma Unwind(rank: nat, ranks: seq<nat>, n: nat, all: seq<nat>)
    requires Reached(3, all, n, true) && rank < 3 && all == [rank] + ranks
    ensures Reached(rank + 1, ranks, n + 1, true)
  {
    var events: seq<Event> :| Attained(events, 3, all, n, true);
    var a := Run(events).scheduled[0];
    var flown := Fly(events, 3, all, n, true);
    assert all[1..] == ranks && all[0] == rank;
    var f := Attempt(a.cb.info, a.cb.next);
    var e := Respond(0, Arrived(200), [Decrypted(200), Broken(Bad(rank))]);
    BadIsReal(rank);
    RunMore(flown, e);
    UnreadSecond(a.info, a.cb, Broken(Bad(rank)));
    Unread(f.info, f.cb, rank);
    ChainUser(f.cb, ranks);
    UnreadStruck(Run(flown), Attempt(a.info, Wrapped(a.info, a.cb)), f, rank, n, true, e.procs);
    Recover(flown + [e], f, ranks, n, true);
  }

  /** A failure after decryption is retried with the user's own callback. */
  lemma Advance(rank: nat, n: nat)
    requires Reached(rank, [], n, false) && rank < 3
    ensures Reached(rank + 1, [], n + 1, false)
  {
    var events: seq<Event> :| Attained(events, rank, [], n, false);
    var a := Run(events).scheduled[0];
    var flown := Fly(events, rank, [], n, false);
    var e := Respond(0, Arrived(200), [Broken(Bad(rank))]);
    BadIsReal(rank);
    RunMore(flown, e);
    Unread(a.info, a.cb, rank);
    UnreadStruck(Run(flown), Attempt(a.info, Wrapped(a.info, a.cb)), a, rank, n, false, e.procs);
    Recover(flown + [e], a, [], n, false);
  }

  lemma OneTaken(a: Attempt, drop: Attempt -> bool)
    requires drop(a)
    ensures Keep([a], drop) == [] && Taken([a], drop) == [a]
  {
    assert [a][..0] == [];
  }

  lemma Begin()
    ensures Reached(0, [], 0, false) && Reached(0, [], 0, true)
  {
    var info := Info(ToNode(A), Some("pk"), Standard, None, None);
    var fits := (i: Info) => true;
    var e1 := [Submit(0, info, NoPath)];
    var e2 := e1 + [PathBuilt(Standard, fits)];
    BadIsReal(0);
    RunMore([], e1[0]);
    assert [] + e1 == e1;
    RunMore(e1, PathBuilt(Standard, fits));
    OneTaken(Attempt(info, User(0)), Resumes(Standard, fits));
    assert Attained(e2, 0, [], 0, false);
    assert Attained(e2, 0, [], 0, true);
  }

  function WeightSum(ranks: seq<nat>): nat {
    if ranks == [] then 0 else Weight(ranks[0]) + WeightSum(ranks[1..])
  }

  predicate AllLow(ranks: seq<nat>) {
    ranks != [] ==> ranks[0] < 3 && AllLow(ranks[1..])
  }

  /** Every re-send the budget allows can happen. */
  lemma {:induction false} Drain(rank: nat, ranks: seq<nat>, n: nat, total: nat)
    requires Reached(rank, ranks, n, true) && rank <= 3 && AllLow(ranks)
    requires total == n + 2 * Weight(rank) + WeightSum(ranks)
    ensures Reached(3, [], total, true)
    decreases 2 * Weight(rank) + WeightSum(ranks), 1
  {
    if rank < 3 {
      DrainUp(rank, ranks, n, total);
    } else if ranks != [] {
      DrainDown(ranks, n, total);
    } else {
      assert WeightSum(ranks) == 0 && total == n;
    }
  }

  lemma OneMoreRank(rank: nat, ranks: seq<nat>, more: seq<nat>)
    requires rank < 3 && AllLow(ranks) && more == [rank] + ranks
    ensures AllLow(more) && WeightSum(more) == Weight(rank) + WeightSum(ranks) && Weight(rank) == 1 + 2 * Weight(rank + 1)
  {
    assert more[1..] == ranks;
  }

  lemma {:induction false} DrainUp(rank: nat, ranks: seq<nat>, n: nat, total: nat)
    requires Reached(rank, ranks, n, true) && rank < 3 && AllLow(ranks)
    requires total == n + 2 * Weight(rank) + WeightSum(ranks)
    ensures Reached(3, [], total, true)
    decreases 2 * Weight(rank) + WeightSum(ranks), 0
  {
    var more := [rank] + ranks;
    OneMoreRank(rank, ranks, more);
    Climb(rank, ranks, n, more);
    Drain(rank + 1, more, n + 1, total);
  }

  lemma {:induction false} DrainDown(ranks: seq<nat>, n: nat, total: nat)
    requires Reached(3, ranks, n, true) && ranks != [] && AllLow(ranks)
    requires total == n + WeightSum(ranks)
    ensures Reached(3, [], total, true)
    decreases WeightSum(ranks), 0
  {
    FirstRank(ranks);
    UnwindFirst(ranks, n);
    Drain(ranks[0] + 1, ranks[1..], n + 1, total);
  }

  lemma FirstRank(ranks: seq<nat>)
    requires ranks != [] && AllLow(ranks)
    ensures ranks[0] < 3 && AllLow(ranks[1..]) && Weight(ranks[0]) == 1 + 2 * Weight(ranks[0] + 1)
    ensures WeightSum(ranks) == Weight(ranks[0]) + WeightSum(ranks[1..])
  {
  }

  lemma UnwindFirst(ranks: seq<nat>, n: nat)
    requires ranks != [] && ranks[0] < 3 && Reached(3, ranks, n, true)
    ensures Reached(ranks[0] + 1, ranks[1..], n + 1, true)
  {
    assert ranks == [ranks[0]] + ranks[1..];
    Unwind(ranks[0], ranks[1..], n, ranks);
  }

  lemma Three()
    ensures Reached(3, [], 3, false)
  {
    Begin();
    Advance(0, 0);
    Advance(1, 1);
    Advance(2, 2);
  }

  /**
   Both bounds are exact: some run over well-typed nodes re-sends fourteen times, and some run
   three times after decryption alone.
   */
  lemma BoundsReached()
    ensures exists events: seq<Event> :: RealRun(events) && Run(events).resends[0] == 14
    ensures exists events: seq<Event> :: RealRun(events) && Run(events).resends[0] == 3 && 0 !in Run(events).early
  {
    Begin();
    Drain(0, [], 0, 14);
    Three();
    var long: seq<Event> :| Attained(long, 3, [], 14, true);
    var plain: seq<Event> :| Attained(plain, 3, [], 3, false);
    assert Run(long).resends[0] == 14 && Run(plain).resends[0] == 3;
  }
}
