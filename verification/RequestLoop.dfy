/**
 The request half of the network object, as the source runs it
 (src/session_network.cpp:743-772, 1109-1112, 1511-1519, 1763-1803, 1817-2105, 2424-2665).

 Each public method is one event of the state machine in `Requests`.
 */
module RequestLoop {
  import opened Options
  import opened NodeDisk
  import opened Requests
  import opened RequestLaws

  /** The queue split by a test; both halves keep their order. */
  lemma SplitNext(queue: seq<Attempt>, i: nat, drop: Attempt -> bool)
    requires i < |queue|
    ensures Keep(queue[..i + 1], drop) == Keep(queue[..i], drop) + if drop(queue[i]) then [] else [queue[i]]
    ensures Taken(queue[..i + 1], drop) == Taken(queue[..i], drop) + if drop(queue[i]) then [queue[i]] else []
  {
    assert queue[..i + 1][..i] == queue[..i];
  }

  lemma RefusalsNext(list: seq<Attempt>, a: Attempt, timeout: bool, status: int)
    ensures Refusals(list + [a], timeout, status)
         == Refusals(list, timeout, status) + [Answer(UserOf(a.cb), Reply(false, timeout, status))]
  {
  }

  /** `std::erase_if`: what stays and what is erased, both in order. */
  method SplitQueue(queue: seq<Attempt>, drop: Attempt -> bool) returns (kept: seq<Attempt>, erased: seq<Attempt>)
    ensures kept == Keep(queue, drop) && erased == Taken(queue, drop)
  {
    kept, erased := [], [];
    for i := 0 to |queue|
      invariant kept == Keep(queue[..i], drop) && erased == Taken(queue[..i], drop)
    {
      SplitNext(queue, i, drop);
      if drop(queue[i]) {
        erased := erased + [queue[i]];
      } else {
        kept := kept + [queue[i]];
      }
    }
    assert queue[..|queue|] == queue;
  }

  method CopyOthers(swarm: seq<Node>, target: Node) returns (others: seq<Node>)
    ensures others == Others(swarm, target)
  {
    others := [];
    for k := 0 to |swarm|
      invariant others == Others(swarm[..k], target)
    {
      assert swarm[..k + 1][..k] == swarm[..k] && swarm[..k + 1][k] == swarm[k];
      if swarm[k] != target {
        others := others + [swarm[k]];
      }
    }
    assert swarm[..|swarm|] == swarm;
  }

  class Network {
    var queue: seq<Attempt>
    var inFlight: seq<Attempt>
    var scheduled: seq<Attempt>
    var waiting: seq<Attempt>
    var refreshed: seq<Attempt>
    var answers: seq<Answer>
    var suspended: bool
    ghost var accepted: set<Uid>
    ghost var resends: multiset<Uid>
    ghost var early: set<Uid>

    ghost function Abs(): State
      reads this
    {
      State(queue, inFlight, scheduled, waiting, refreshed, answers, accepted, resends, early, suspended)
    }

    /** Each accepted request is in one place or answered once, and within its budget of re-sends. */
    ghost predicate Valid()
      reads this
    {
      Inv(Abs())
    }

    constructor ()
      ensures Valid() && Abs() == INIT
    {
      RunKeeps([]);
      queue, inFlight, scheduled, waiting, refreshed, answers := [], [], [], [], [], [];
      suspended := false;
      accepted, resends, early := {}, multiset{}, {};
    }

    /** Schedules an automatic re-send. */
    method Resend(a: Attempt)
      modifies this
      ensures Abs() == Place(old(Abs()), Resent(a))
    {
      scheduled := scheduled + [a];
      resends := resends + multiset{UserOf(a.cb)};
    }

    /** Calls a callback: the user's, or a response handler that ends in one. */
    method Invoke(cb: Callback, reply: Reply, procs: seq<Processed>)
      modifies this
      ensures Abs() == Place(old(Abs()), Deliver(cb, reply, procs))
      decreases cb
    {
      match cb
      case User(u) =>
        answers := answers + [Answer(u, reply)];
      case Wrapped(info, next) =>
        if !reply.success || reply.timeout || procs == [] {
          Invoke(next, reply, procs);
        } else {
          match procs[0]
          case Decrypted(status) =>
            Invoke(next, Reply(true, false, status), procs[1..]);
          case Broken(f) =>
            match Judge(info, f.(timeout := false))
            case Retry(i) => Resend(Attempt(i, next));
            case AwaitRefresh(_) => waiting := waiting + [Attempt(info, next)];
            case Fail(r) => Invoke(next, r, procs[1..]);
        }
    }

    /** A failing call of a callback reaches the user whatever the handlers would find. */
    method Fault(cb: Callback, timeout: bool, status: int)
      modifies this
      ensures Abs() == Refuse(old(Abs()), cb, timeout, status)
      decreases cb
    {
      match cb
      case User(u) => answers := answers + [Answer(u, Reply(false, timeout, status))];
      case Wrapped(_, next) => Fault(next, timeout, status);
    }

    method Send(a: Attempt, sending: Sending)
      modifies this
      ensures Abs() == Requests.Send(old(Abs()), a, sending)
    {
      match sending
      case NoPath =>
        if suspended {
          Fault(a.cb, false, ERROR_NETWORK_SUSPENDED);
        } else {
          queue := queue + [a];
        }
      case BuilderFails => Fault(a.cb, false, ERROR_BUILDING_ONION_REQUEST);
      case ConnectionInvalid => Fault(a.cb, false, -1);
      case PastDeadline => Fault(a.cb, true, ERROR_PATH_BUILD_TIMEOUT);
      case OnItsWay => inFlight := inFlight + [Attempt(a.info, Wrapped(a.info, a.cb))];
    }

    method SubmitRequest(u: Uid, info: Info, sending: Sending)
      requires u !in accepted && info.retry.None?
      modifies this
      ensures Abs() == Step(old(Abs()), Submit(u, info, sending))
    {
      accepted := accepted + {u};
      Send(Attempt(info, User(u)), sending);
    }

    method RunOne(i: nat, sending: Sending)
      requires i < |scheduled|
      modifies this
      ensures Abs() == Step(old(Abs()), RunScheduled(i, sending))
    {
      var a := scheduled[i];
      scheduled := Without(scheduled, i);
      Send(a, sending);
    }

    method OnResponse(i: nat, arrival: Arrival, procs: seq<Processed>)
      requires i < |inFlight|
      modifies this
      ensures Abs() == Step(old(Abs()), Respond(i, arrival, procs))
    {
      var a := inFlight[i];
      inFlight := Without(inFlight, i);
      match arrival
      case Arrived(status) => Invoke(a.cb, Reply(true, false, status), procs);
      case Rejected(f) =>
        match Judge(a.info, f)
        case Retry(i) =>
          Resend(Attempt(i, a.cb));
          early := early + {UserOf(a.cb)};
        case AwaitRefresh(_) =>
          waiting := waiting + [a];
          early := early + {UserOf(a.cb)};
        case Fail(r) => Invoke(a.cb, r, procs);
    }

    method CheckRequestQueueTimeouts(now: int)
      modifies this
      ensures Abs() == Step(old(Abs()), CheckTimeouts(now))
    {
      if suspended { return; }
      var kept, expired := SplitQueue(queue, ExpiredAt(now));
      RefuseAll(expired, true, ERROR_PATH_BUILD_TIMEOUT);
      queue := kept;
    }

    /** The end of a successful path build: the requests the path fits are scheduled. */
    method ResumeQueue(t: PathType, fits: Info -> bool)
      modifies this
      ensures Abs() == Step(old(Abs()), PathBuilt(t, fits))
    {
      if suspended { return; }
      var kept, resumed := SplitQueue(queue, Resumes(t, fits));
      queue, scheduled := kept, scheduled + resumed;
    }

    method CloseAll()
      modifies this
      ensures Abs() == Step(old(Abs()), CloseConnections)
    {
      RefuseAll(queue, false, ERROR_NETWORK_SUSPENDED);
      queue := [];
    }

    /** Calls back a list of requests with one failure, in order. */
    method RefuseAll(list: seq<Attempt>, timeout: bool, status: int)
      modifies this
      ensures Abs() == old(Abs()).(answers := old(answers) + Refusals(list, timeout, status))
    {
      for i := 0 to |list|
        invariant Abs() == old(Abs()).(answers := old(answers) + Refusals(list[..i], timeout, status))
      {
        assert list[..i + 1] == list[..i] + [list[i]];
        RefusalsNext(list[..i], list[i], timeout, status);
        Fault(list[i].cb, timeout, status);
      }
      assert list[..|list|] == list;
    }

    method CompleteRefresh()
      modifies this
      ensures Abs() == Step(old(Abs()), RefreshComplete)
    {
      var all := waiting;
      for i := 0 to |all|
        invariant Abs() == old(Abs()).(refreshed := old(refreshed) + all[..i])
      {
        refreshed := refreshed + [all[i]];
        assert all[..i + 1] == all[..i] + [all[i]];
      }
      assert all[..|all|] == all;
      waiting := [];
    }

    /** `suspend` and `resume`; the connections are closed by a call of its own. */
    method SetSuspended(value: bool)
      modifies this
      ensures Abs() == Step(old(Abs()), Event.SetSuspended(value))
    {
      suspended := value;
    }

    method LookUpSwarm(i: nat, swarm: Option<seq<Node>>, pick: nat)
      requires i < |refreshed| && refreshed[i].info.dest.ToNode?
      modifies this
      ensures Abs() == Step(old(Abs()), RunRefreshed(i, swarm, pick))
    {
      var a := refreshed[i];
      refreshed := Without(refreshed, i);
      if swarm.None? {
        waiting := waiting + [a];
        return;
      }
      var others := CopyOthers(swarm.value, a.info.dest.node);
      if others == [] {
        Fault(a.cb, false, 421);
      } else {
        Resend(Attempt(a.info.(dest := ToNode(others[pick % |others|]), retry := Some(SwarmRefresh)), a.cb));
      }
    }

    /** The event can happen: a new request is new, and what is answered or run is there. */
    ghost predicate Enabled(e: Event)
      reads this
    {
      match e
      case Submit(u, info, _) => u !in accepted && info.retry.None?
      case RunScheduled(i, _) => i < |scheduled|
      case Respond(i, _, _) => i < |inFlight|
      case RunRefreshed(i, _, _) => i < |refreshed|
      case _ => true
    }

    /**
     One turn of the event loop.  Afterwards every accepted request is again in exactly one
     place or answered exactly once, and within its budget.
     */
    method Handle(e: Event)
      requires Valid() && Enabled(e)
      modifies this
      ensures Valid() && Abs() == Step(old(Abs()), e)
    {
      StepKeeps(Abs(), e);
      RefreshedHaveTargets(Abs());
      Dispatch(e);
    }

    method Dispatch(e: Event)
      requires Enabled(e) && forall a | a in refreshed :: a.info.dest.ToNode?
      modifies this
      ensures Abs() == Step(old(Abs()), e)
    {
      match e
      case Submit(u, info, sending) => SubmitRequest(u, info, sending);
      case RunScheduled(i, sending) => RunOne(i, sending);
      case Respond(i, arrival, procs) => OnResponse(i, arrival, procs);
      case CheckTimeouts(now) => CheckRequestQueueTimeouts(now);
      case PathBuilt(t, fits) => ResumeQueue(t, fits);
      case CloseConnections => CloseAll();
      case SetSuspended(value) => SetSuspended(value);
      case RefreshComplete => CompleteRefresh();
      case RunRefreshed(i, swarm, pick) => LookUpSwarm(i, swarm, pick);
    }
  }

  lemma RefreshedHaveTargets(s: State)
    requires Inv(s)
    ensures forall a | a in s.refreshed :: a.info.dest.ToNode?
  {
    assert AllFine(s, Looking);
    forall a | a in s.refreshed ensures a.info.dest.ToNode? { assert a in At(s, Looking) && FineIn(s, a, Looking); }
  }
}
