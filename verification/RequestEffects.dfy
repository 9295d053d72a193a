/**
 What each event of the network loop does to the requests, in terms of the requests alone
 (src/session_network.cpp:61-63, 743-761, 1109-1112, 1511-1519, 1780-1803, 1817-1970, 2444-2665).
 */
module RequestEffects {
  import opened Options
  import opened NodeDisk
  import opened Requests

  // ----- erasing part of the queue -----------------------------------------------------------------------

  lemma {:induction false} KeepTakenAre(q: seq<Attempt>, drop: Attempt -> bool)
    ensures forall a | a in Keep(q, drop) :: a in q && !drop(a)
    ensures forall a | a in Taken(q, drop) :: a in q && drop(a)
    ensures forall a | a in q :: if drop(a) then a in Taken(q, drop) else a in Keep(q, drop)
    ensures |Keep(q, drop)| + |Taken(q, drop)| == |q|
  {
    if q != [] {
      var n := |q| - 1;
      assert q == q[..n] + [q[n]];
      KeepTakenAre(q[..n], drop);
    }
  }

  lemma {:induction false} KeepTakenConcat(p: seq<Attempt>, q: seq<Attempt>, drop: Attempt -> bool)
    ensures Keep(p + q, drop) == Keep(p, drop) + Keep(q, drop)
    ensures Taken(p + q, drop) == Taken(p, drop) + Taken(q, drop)
    decreases |q|
  {
    if q == [] {
      assert p + q == p;
    } else {
      var n := |q| - 1;
      assert (p + q)[..|p + q| - 1] == p + q[..n];
      KeepTakenConcat(p, q[..n], drop);
    }
  }

  /**
   A timeout check answers exactly the requests with a deadline before now, each with a timeout
   of its path build, and keeps exactly the others; nothing else changes.
   */
  lemma TimeoutsExactly(s: State, now: int)
    requires !s.suspended
    ensures var t := Step(s, CheckTimeouts(now)); var k := |s.answers|;
      && t == s.(queue := t.queue, answers := t.answers) && |t.answers| >= k && t.answers[..k] == s.answers
      && (forall a :: a in t.queue <==> a in s.queue && match a.info.deadline case None => true case Some(d) => now <= d)
      && (forall a | a in s.queue && a !in t.queue :: Answer(UserOf(a.cb), Reply(false, true, -10003)) in t.answers[k..])
      && (forall w | w in t.answers[k..] ::
            exists a :: a in s.queue && a !in t.queue && w == Answer(UserOf(a.cb), Reply(false, true, -10003)))
      && |t.queue| + |t.answers| == |s.queue| + k
  {
    var kept, gone := Keep(s.queue, ExpiredAt(now)), Taken(s.queue, ExpiredAt(now));
    KeepTakenAre(s.queue, ExpiredAt(now));
    RefusedExactly(s.answers, gone, true, -10003);
    var t := Step(s, CheckTimeouts(now));
    assert t.queue == kept && t.answers == s.answers + Refusals(gone, true, -10003);
    forall a | a in s.queue && a !in t.queue ensures Answer(UserOf(a.cb), Reply(false, true, -10003)) in t.answers[|s.answers|..] {
      assert a in gone;
    }
  }

  lemma RefusedExactly(before: seq<Answer>, gone: seq<Attempt>, timeout: bool, status: int)
    ensures var after := before + Refusals(gone, timeout, status); var k := |before|;
      && |after| == k + |gone| && after[..k] == before
      && (forall a | a in gone :: Answer(UserOf(a.cb), Reply(false, timeout, status)) in after[k..])
      && (forall w | w in after[k..] :: exists a :: a in gone && w == Answer(UserOf(a.cb), Reply(false, timeout, status)))
  {
    var rs := Refusals(gone, timeout, status);
    assert (before + rs)[|before|..] == rs;
    forall a | a in gone ensures Answer(UserOf(a.cb), Reply(false, timeout, status)) in rs {
      var i :| 0 <= i < |gone| && gone[i] == a;
      assert rs[i] in rs;
    }
    forall w | w in rs ensures exists a :: a in gone && w == Answer(UserOf(a.cb), Reply(false, timeout, status)) {
      var i :| 0 <= i < |rs| && rs[i] == w;
      assert gone[i] in gone;
    }
  }

  /** It works through the queue in order, and not at all on a suspended network. */
  lemma TimeoutsInOrder(s: State, p: seq<Attempt>, q: seq<Attempt>, now: int)
    ensures !s.suspended && s.answers == [] ==>
      var both, first, second := Step(s.(queue := p + q), CheckTimeouts(now)), Step(s.(queue := p), CheckTimeouts(now)), Step(s.(queue := q), CheckTimeouts(now));
      both.queue == first.queue + second.queue && both.answers == first.answers + second.answers
    ensures s.suspended ==> Step(s, CheckTimeouts(now)) == s
  {
    KeepTakenConcat(p, q, ExpiredAt(now));
    var a, b := Taken(p, ExpiredAt(now)), Taken(q, ExpiredAt(now));
    assert Refusals(a + b, true, -10003) == Refusals(a, true, -10003) + Refusals(b, true, -10003);
  }

  /**
   A new path takes exactly the requests of its type that it fits out of the queue, and schedules
   them; nothing else changes.
   */
  lemma ResumedExactly(s: State, t: PathType, fits: Info -> bool)
    requires !s.suspended
    ensures var o := Step(s, PathBuilt(t, fits)); var k := |s.scheduled|;
      && o == s.(queue := o.queue, scheduled := o.scheduled) && |o.scheduled| >= k && o.scheduled[..k] == s.scheduled
      && (forall a :: a in o.queue <==> a in s.queue && !(a.info.pathType == t && fits(a.info)))
      && (forall a :: a in o.scheduled[k..] <==> a in s.queue && a.info.pathType == t && fits(a.info))
      && |o.queue| + |o.scheduled| == |s.queue| + k
  {
    KeepTakenAre(s.queue, Resumes(t, fits));
    var o, gone := Step(s, PathBuilt(t, fits)), Taken(s.queue, Resumes(t, fits));
    assert o.scheduled == s.scheduled + gone;
    assert o.scheduled[|s.scheduled|..] == gone;
  }

  lemma ResumedInOrder(s: State, p: seq<Attempt>, q: seq<Attempt>, t: PathType, fits: Info -> bool)
    ensures !s.suspended && s.scheduled == [] ==>
      var both, first, second := Step(s.(queue := p + q), PathBuilt(t, fits)), Step(s.(queue := p), PathBuilt(t, fits)), Step(s.(queue := q), PathBuilt(t, fits));
      both.queue == first.queue + second.queue && both.scheduled == first.scheduled + second.scheduled
    ensures s.suspended ==> Step(s, PathBuilt(t, fits)) == s
  {
    KeepTakenConcat(p, q, Resumes(t, fits));
  }

  /** Closing answers every queued request, in order, and leaves none queued. */
  lemma ClosedExactly(s: State)
    ensures var t := Step(s, CloseConnections); var k := |s.answers|;
      && t == s.(queue := [], answers := t.answers) && |t.answers| == k + |s.queue| && t.answers[..k] == s.answers
      && forall i | 0 <= i < |s.queue| :: t.answers[k + i] == Answer(UserOf(s.queue[i].cb), Reply(false, false, -10001))
  {
  }

  // ----- sending ------------------------------------------------------------------------------------------

  /** `t` is `s` with one more answer. */
  predicate Answers(s: State, t: State, u: Uid, reply: Reply) {
    t == s.(answers := s.answers + [Answer(u, reply)])
  }

  /** What becomes of an attempt that is sent. */
  predicate IsSent(s: State, a: Attempt, sending: Sending, t: State) {
    match sending
    case NoPath =>
      if s.suspended then Answers(s, t, UserOf(a.cb), Reply(false, false, -10001)) else t == s.(queue := s.queue + [a])
    case BuilderFails => Answers(s, t, UserOf(a.cb), Reply(false, false, -10002))
    case ConnectionInvalid => Answers(s, t, UserOf(a.cb), Reply(false, false, -1))
    case PastDeadline => Answers(s, t, UserOf(a.cb), Reply(false, true, -10003))
    case OnItsWay => t == s.(inFlight := s.inFlight + [Attempt(a.info, Wrapped(a.info, a.cb))])
  }

  /** A new request is sent with the user's own callback, a scheduled one as it was scheduled. */
  lemma SentAs(s: State, u: Uid, info: Info, i: nat, sending: Sending)
    ensures u !in s.accepted && info.retry.None? ==>
      IsSent(s.(accepted := s.accepted + {u}), Attempt(info, User(u)), sending, Step(s, Submit(u, info, sending)))
    ensures i < |s.scheduled| ==>
      IsSent(s.(scheduled := s.scheduled[..i] + s.scheduled[i + 1..]), s.scheduled[i], sending, Step(s, RunScheduled(i, sending)))
  {
  }

  // ----- judging a failure -----------------------------------------------------------------------------------

  /** Bodies of proxies stand for their status, and a gateway timeout for a timeout. */
  lemma HtmlStatuses(f: Failure, body: string)
    requires f.status == -1 && f.response == Some(body)
    ensures StartsWith(body, "400 Bad Request") ==> Normalised(f) == f.(status := 400)
    ensures StartsWith(body, "403 Forbidden") ==> Normalised(f) == f.(status := 403)
    ensures StartsWith(body, "500 Internal Server Error") ==> Normalised(f) == f.(status := 500)
    ensures StartsWith(body, "502 Bad Gateway") ==> Normalised(f) == f.(status := 502)
    ensures StartsWith(body, "503 Service Unavailable") ==> Normalised(f) == f.(status := 503)
    ensures StartsWith(body, "504 Gateway Timeout") ==> Normalised(f) == f.(status := 504, timeout := true)
  {
    HtmlRowDecides(f, HTML_ERRORS);
    assert HTML_ERRORS[0] in HTML_ERRORS && HTML_ERRORS[1] in HTML_ERRORS && HTML_ERRORS[2] in HTML_ERRORS;
    assert HTML_ERRORS[3] in HTML_ERRORS && HTML_ERRORS[4] in HTML_ERRORS && HTML_ERRORS[5] in HTML_ERRORS;
  }

  /** Other bodies, other statuses and failures without a body are taken as they are. */
  lemma OtherStatuses(f: Failure)
    requires f.status != -1 || f.response == None || !(StartsWith(f.response.value, "40") || StartsWith(f.response.value, "50"))
    ensures Normalised(f) == f
  {
    if f.status == -1 && f.response.Some? {
      HtmlRowDecides(f, HTML_ERRORS);
      forall r | r in HTML_ERRORS ensures !StartsWith(f.response.value, r.0) {
        if StartsWith(f.response.value, r.0) { ProxyBody(f.response.value, r); }
      }
    }
  }

  lemma ProxyBody(body: string, r: (string, int, bool))
    requires r in HTML_ERRORS && StartsWith(body, r.0)
    ensures StartsWith(body, "40") || StartsWith(body, "50")
  {
    assert body[..2] == r.0[..2];
    assert r.0[..2] == "40" || r.0[..2] == "50";
  }

  /** The verdict on a failure, as the request and the status have it. */
  lemma JudgeOutcome(info: Info, f: Failure)
    ensures var g := Normalised(f);
      if info.retry.None? && f.response == Some("Decryption failed (both XChaCha20-Poly1305 and AES256-GCM)") then
        Judge(info, f) == Retry(info.(retry := Some(DecryptionFailure)))
      else
        match Judge(info, f)
        case Retry(i) =>
          exists n :: n in f.swarm && info.dest.ToNode? && n != info.dest.node && i == info.(dest := ToNode(n), retry := Some(Redirect))
        case AwaitRefresh(_) => true
        case Fail(r) =>
          r == Reply(false,
                     if info.dest.ToServer? && g.timeout then true
                     else if g.status in {400, 404, 406, 425} then false
                     else g.timeout,
                     g.status)
  {
    if Judge(info, f).Retry? && Judge(info, f).info.retry == Some(Redirect) {
      RedirectLeavesTarget(info, f);
    }
  }

  // ----- responses ---------------------------------------------------------------------------------------------

  /** What a failure caught before decryption does, by its verdict. */
  lemma RejectedExactly(s: State, i: nat, f: Failure, procs: seq<Processed>)
    requires i < |s.inFlight|
    ensures var a, t := s.inFlight[i], Step(s, Respond(i, Rejected(f), procs)); var u := UserOf(a.cb);
      var s1 := s.(inFlight := s.inFlight[..i] + s.inFlight[i + 1..]);
      match Judge(a.info, f)
      case Retry(b) =>
        t == s1.(scheduled := s.scheduled + [Attempt(b, a.cb)], resends := s.resends + multiset{u}, early := s.early + {u})
      case AwaitRefresh(_) => t == s1.(waiting := s.waiting + [a], early := s.early + {u})
      case Fail(r) => Answers(s1, t, u, r)
  {
    var a := s.inFlight[i];
    if Judge(a.info, f).Fail? {
      JudgeRaisesRank(a.info, f);
      FailureReaches(a.cb, Judge(a.info, f).reply, procs);
    }
  }

  lemma {:induction false} FailureReaches(cb: Callback, r: Reply, procs: seq<Processed>)
    requires !r.success
    ensures Deliver(cb, r, procs) == Answered(Answer(UserOf(cb), r))
    decreases cb
  {
    if cb.Wrapped? { FailureReaches(cb.next, r, procs); }
  }

  /** How many handlers stand before the user. */
  function Depth(cb: Callback): nat {
    if cb.User? then 0 else 1 + Depth(cb.next)
  }

  /** The callback behind the first `k` handlers. */
  function Behind(cb: Callback, k: nat): Callback
    requires k <= Depth(cb)
    decreases k
  {
    if k == 0 then cb else Behind(cb.next, k - 1)
  }

  predicate AllRead(procs: seq<Processed>, k: nat) {
    k <= |procs| && forall i | 0 <= i < k :: procs[i].Decrypted?
  }

  /** A response that every handler can read reaches the user with the status the last one found. */
  lemma {:induction false} ReadByAll(cb: Callback, status: int, procs: seq<Processed>)
    requires AllRead(procs, Depth(cb))
    ensures Deliver(cb, Reply(true, false, status), procs)
         == Answered(Answer(UserOf(cb), Reply(true, false, if cb.User? then status else procs[Depth(cb) - 1].status)))
    decreases cb
  {
    if cb.Wrapped? {
      assert procs[0].Decrypted?;
      ReadByAll(cb.next, procs[0].status, procs[1..]);
    }
  }

  /**
   When the handlers before it can read a response and the `k`-th cannot, its verdict on the
   request it captured decides: the request is scheduled again or put off with the callback behind
   that handler, or the user gets the failure.
   */
  lemma {:induction false} UnreadBy(cb: Callback, status: int, procs: seq<Processed>, k: nat)
    requires k < Depth(cb) && k < |procs| && AllRead(procs, k) && procs[k].Broken?
    ensures var h := Behind(cb, k);
      h.Wrapped? &&
      match Judge(h.info, procs[k].failure.(timeout := false))
      case Retry(b) => Deliver(cb, Reply(true, false, status), procs) == Resent(Attempt(b, h.next))
      case AwaitRefresh(_) => Deliver(cb, Reply(true, false, status), procs) == Waiting(Attempt(h.info, h.next))
      case Fail(r) => Deliver(cb, Reply(true, false, status), procs) == Answered(Answer(UserOf(cb), r))
    decreases k
  {
    if k == 0 {
      var f := procs[0].failure.(timeout := false);
      if Judge(cb.info, f).Fail? {
        JudgeRaisesRank(cb.info, f);
        FailureReaches(cb.next, Judge(cb.info, f).reply, procs[1..]);
      }
    } else {
      assert procs[0].Decrypted?;
      UnreadBy(cb.next, procs[0].status, procs[1..], k - 1);
    }
  }

  /** What a response that arrived does, by what its callback makes of it. */
  lemma ArrivedExactly(s: State, i: nat, status: int, procs: seq<Processed>)
    requires i < |s.inFlight|
    ensures var a, t := s.inFlight[i], Step(s, Respond(i, Arrived(status), procs));
      var s1 := s.(inFlight := s.inFlight[..i] + s.inFlight[i + 1..]);
      match Deliver(a.cb, Reply(true, false, status), procs)
      case Answered(w) => t == s1.(answers := s.answers + [w])
      case Resent(b) => t == s1.(scheduled := s.scheduled + [b], resends := s.resends + multiset{UserOf(b.cb)})
      case Waiting(b) => t == s1.(waiting := s.waiting + [b])
  {
  }

  // ----- refreshing the cache -------------------------------------------------------------------------------------

  /** A finished refresh lets all that waited look their swarm up, in order. */
  lemma RefreshExactly(s: State, b: bool)
    ensures Step(s, RefreshComplete) == s.(waiting := [], refreshed := s.refreshed + s.waiting)
    ensures Step(s, SetSuspended(b)) == s.(suspended := b)
  {
  }

  /**
   Looking a swarm up: without one the request waits for the next refresh, with no other node in
   it the user gets the 421, and else it is sent to one of the other nodes, for the last time.
   */
  lemma LookedUpExactly(s: State, i: nat, swarm: Option<seq<Node>>, pick: nat)
    requires i < |s.refreshed| && s.refreshed[i].info.dest.ToNode?
    ensures var a, t := s.refreshed[i], Step(s, RunRefreshed(i, swarm, pick)); var u := UserOf(a.cb);
      var s1 := s.(refreshed := s.refreshed[..i] + s.refreshed[i + 1..]);
      if swarm.None? then t == s1.(waiting := s.waiting + [a])
      else if forall n | n in swarm.value :: n == a.info.dest.node then Answers(s1, t, u, Reply(false, false, 421))
      else exists n :: n in swarm.value && n != a.info.dest.node &&
             t == s1.(scheduled := s.scheduled + [Attempt(a.info.(dest := ToNode(n), retry := Some(SwarmRefresh)), a.cb)],
                      resends := s.resends + multiset{u})
  {
    var a := s.refreshed[i];
    if swarm.Some? {
      var others := Others(swarm.value, a.info.dest.node);
      if others != [] {
        var n := others[pick % |others|];
        assert n in others;
      }
    }
  }

  lemma {:induction false} OthersInOrder(a: seq<Node>, b: seq<Node>, target: Node)
    ensures Others(a + b, target) == Others(a, target) + Others(b, target)
    ensures forall n: Node :: Others([n], target) == if n == target then [] else [n]
    decreases |b|
  {
    forall n: Node ensures Others([n], target) == if n == target then [] else [n] { assert [n][..0] == []; }
    if b == [] {
      assert a + b == a;
    } else {
      var k := |b| - 1;
      assert (a + b)[..|a + b| - 1] == a + b[..k];
      OthersInOrder(a, b[..k], target);
    }
  }
}
