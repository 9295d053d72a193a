/**
 The life of a request: sending, queueing, failing, retrying, answering
 (src/session_network.cpp:743-772, 1109-1112, 1511-1519, 1763-1803, 1817-2105, 2424-2665,
 2812-2814).

 Every event of the loop is a step of a state machine; what the network, the clock, the
 path finder and the swarm cache answer is part of the event.  User callbacks are outputs.
 */
module Requests {
  import opened Options
  import opened NodeDisk

  type Uid = nat

  datatype PathType = Standard | Upload | Download

  datatype Reason = DecryptionFailure | Redirect | SwarmRefresh

  /** How far a request is down the road of retries. */
  function Rank(r: Option<Reason>): nat {
    match r
    case None => 0
    case Some(DecryptionFailure) => 1
    case Some(Redirect) => 2
    case Some(SwarmRefresh) => 3
  }

  datatype Dest = ToNode(node: Node) | ToServer

  datatype Info = Info(dest: Dest, swarmPk: Option<string>, pathType: PathType, retry: Option<Reason>, deadline: Option<int>)

  /** The user's callback, possibly behind response handlers that captured earlier attempts. */
  datatype Callback = User(uid: Uid) | Wrapped(info: Info, next: Callback)

  datatype Attempt = Attempt(info: Info, cb: Callback)

  datatype Reply = Reply(success: bool, timeout: bool, status: int)

  datatype Answer = Answer(uid: Uid, reply: Reply)

  const ERROR_NETWORK_SUSPENDED := -10001
  const ERROR_BUILDING_ONION_REQUEST := -10002
  const ERROR_PATH_BUILD_TIMEOUT := -10003

  const DECRYPTION_FAILED := "Decryption failed (both XChaCha20-Poly1305 and AES256-GCM)"

  // ----- deciding what a failure means ---------------------------------------------------------------

  /** A failure as it reaches the error handler, with the swarm cached for the request's pubkey. */
  datatype Failure = Failure(timeout: bool, status: int, response: Option<string>, swarm: seq<Node>, pick: nat)

  predicate StartsWith(s: string, p: string) {
    |p| <= |s| && s[..|p|] == p
  }

  /** Status and timeout recovered from the start of an HTML body, as (prefix, status, timeout). */
  const HTML_ERRORS: seq<(string, int, bool)> :=
    [("400 Bad Request", 400, false), ("403 Forbidden", 403, false), ("500 Internal Server Error", 500, false),
     ("502 Bad Gateway", 502, false), ("503 Service Unavailable", 503, false), ("504 Gateway Timeout", 504, true)]

  function FromHtml(f: Failure, rows: seq<(string, int, bool)>): Failure
    decreases |rows|
  {
    if rows == [] || f.response.None? then f
    else if StartsWith(f.response.value, rows[0].0)
    then FromHtml(f.(status := rows[0].1, timeout := f.timeout || rows[0].2), rows[1..])
    else FromHtml(f, rows[1..])
  }

  function Normalised(f: Failure): Failure {
    if f.status == -1 then FromHtml(f, HTML_ERRORS) else f
  }

  datatype Verdict =
    | Retry(info: Info)
    | AwaitRefresh(reply: Reply)
    | Fail(reply: Reply)

  /** The swarm's nodes other than the one that answered. */
  function Others(swarm: seq<Node>, target: Node): (r: seq<Node>)
    ensures forall n | n in r :: n in swarm && n != target
    ensures forall n | n in swarm && n != target :: n in r
  {
    if swarm == [] then [] else
      var n := |swarm| - 1;
      Others(swarm[..n], target) + (if swarm[n] != target then [swarm[n]] else [])
  }

  /** The request part of the error handler: retry, wait for a cache refresh, or give up. */
  function Judge(info: Info, f0: Failure): Verdict {
    if info.retry.None? && f0.response == Some(DECRYPTION_FAILED) then
      Retry(info.(retry := Some(DecryptionFailure)))
    else
      var f := Normalised(f0);
      if info.dest.ToServer? && f.timeout then Fail(Reply(false, true, f.status))
      else if f.status == 400 || f.status == 404 || f.status == 406 || f.status == 425 then Fail(Reply(false, false, f.status))
      else if f.status == 421 && info.swarmPk.Some? && info.dest.ToNode? && Rank(info.retry) <= 1
              && Others(f.swarm, info.dest.node) != [] then
        var others := Others(f.swarm, info.dest.node);
        Retry(info.(dest := ToNode(others[f.pick % |others|]), retry := Some(Redirect)))
      else if f.status == 421 && info.swarmPk.Some? && info.dest.ToNode? && info.retry == Some(Redirect) then
        AwaitRefresh(Reply(false, false, f.status))
      else Fail(Reply(false, f.timeout, f.status))
  }

  /** Every automatic re-send raises the rank, and only a request for a node's swarm waits for a refresh. */
  lemma JudgeRaisesRank(info: Info, f: Failure)
    ensures Judge(info, f).Retry? ==> Rank(info.retry) < Rank(Judge(info, f).info.retry) <= 2
    ensures Judge(info, f).AwaitRefresh? ==> info.retry == Some(Redirect) && info.dest.ToNode? && info.swarmPk.Some?
    ensures Judge(info, f).Fail? ==> !Judge(info, f).reply.success
    ensures Judge(info, f).AwaitRefresh? ==> !Judge(info, f).reply.success
  {
  }

  /** A redirect goes to another node of the swarm than the one that answered 421. */
  lemma RedirectLeavesTarget(info: Info, f: Failure)
    requires Judge(info, f).Retry? && Judge(info, f).info.retry == Some(Redirect)
    ensures info.dest.ToNode? && Judge(info, f).info.dest.ToNode?
    ensures Judge(info, f).info.dest.node != info.dest.node && Judge(info, f).info.dest.node in f.swarm
    ensures Normalised(f).status == 421
  {
    FromHtmlKeepsSwarm(f, HTML_ERRORS);
    var others := Others(f.swarm, info.dest.node);
    assert others[f.pick % |others|] in others;
  }

  lemma {:induction false} FromHtmlKeepsSwarm(f: Failure, rows: seq<(string, int, bool)>)
    ensures FromHtml(f, rows).swarm == f.swarm && FromHtml(f, rows).pick == f.pick
    decreases |rows|
  {
    if rows != [] && f.response.Some? {
      FromHtmlKeepsSwarm(f.(status := rows[0].1, timeout := f.timeout || rows[0].2), rows[1..]);
      FromHtmlKeepsSwarm(f, rows[1..]);
    }
  }

  function Corrected(f: Failure, row: (string, int, bool)): Failure {
    f.(status := row.1, timeout := f.timeout || row.2)
  }

  /** No body starts with two of the prefixes. */
  lemma PrefixesDiffer(body: string, a: (string, int, bool), b: (string, int, bool))
    requires a in HTML_ERRORS && b in HTML_ERRORS && StartsWith(body, a.0) && StartsWith(body, b.0)
    ensures a == b
  {
    assert a.0[..3] == body[..3] == b.0[..3];
    assert a.0[0] == b.0[0] && a.0[1] == b.0[1] && a.0[2] == b.0[2];
  }

  /** Whatever the order of the rows, the one that matches corrects the failure. */
  lemma {:induction false} HtmlRowDecides(f: Failure, rows: seq<(string, int, bool)>)
    requires f.response.Some? && forall r | r in rows :: r in HTML_ERRORS
    ensures forall r | r in rows && StartsWith(f.response.value, r.0) :: FromHtml(f, rows) == Corrected(f, r)
    ensures (forall r | r in rows :: !StartsWith(f.response.value, r.0)) ==> FromHtml(f, rows) == f
    decreases |rows|
  {
    if rows != [] {
      var first, rest := rows[0], rows[1..];
      assert forall r | r in rows :: r == first || r in rest;
      if StartsWith(f.response.value, first.0) {
        var g := Corrected(f, first);
        HtmlRowDecides(g, rest);
        forall r | r in rows && StartsWith(f.response.value, r.0) ensures r == first {
          PrefixesDiffer(f.response.value, first, r);
        }
        if r :| r in rest && StartsWith(f.response.value, r.0) {
          assert FromHtml(g, rest) == Corrected(g, r) && r == first;
        }
      } else {
        HtmlRowDecides(f, rest);
      }
    }
  }

  /** The table is an unordered map: the order in which its rows are tried makes no difference. */
  lemma HtmlOrderIrrelevant(f: Failure, rows: seq<(string, int, bool)>)
    requires forall r :: r in rows <==> r in HTML_ERRORS
    ensures FromHtml(f, rows) == FromHtml(f, HTML_ERRORS)
  {
    if f.response.Some? {
      HtmlRowDecides(f, rows);
      HtmlRowDecides(f, HTML_ERRORS);
      if r :| r in rows && StartsWith(f.response.value, r.0) {
        assert r in HTML_ERRORS;
      }
    }
  }

  /** A table row never makes a 421, so a 421 is one that was reported. */
  lemma OnlyReported421(f: Failure)
    ensures Normalised(f).status == 421 <==> f.status == 421
  {
    if f.status == -1 && f.response.Some? {
      HtmlRowDecides(f, HTML_ERRORS);
      if r :| r in HTML_ERRORS && StartsWith(f.response.value, r.0) {
        assert Normalised(f).status == r.1;
      }
    }
  }

  /** Exactly when a request is sent again, put off, or failed. */
  lemma JudgeIff(info: Info, f: Failure)
    ensures var first := info.retry.None? && f.response == Some(DECRYPTION_FAILED);
      var redirected := !first && f.status == 421 && info.swarmPk.Some? && info.dest.ToNode?;
      && (Judge(info, f).Retry? <==>
            first || (redirected && Rank(info.retry) <= 1 && exists n :: n in f.swarm && n != info.dest.node))
      && (Judge(info, f).AwaitRefresh? <==> redirected && info.retry == Some(Redirect))
  {
    OnlyReported421(f);
    FromHtmlKeepsSwarm(f, HTML_ERRORS);
    if info.dest.ToNode? {
      var others := Others(f.swarm, info.dest.node);
      if others != [] {
        assert others[0] in others;
      }
      assert others != [] <==> exists n :: n in f.swarm && n != info.dest.node;
    }
  }

  // ----- delivering a reply ---------------------------------------------------------------------------

  /** What a response handler makes of a successful reply: the decrypted status, or a failure. */
  datatype Processed = Decrypted(status: int) | Broken(failure: Failure)

  datatype Delivery =
    | Answered(answer: Answer)
    | Resent(attempt: Attempt)
    | Waiting(attempt: Attempt)

  /** Calling a callback; `procs` says what each response handler on the way finds. */
  function Deliver(cb: Callback, reply: Reply, procs: seq<Processed>): Delivery
    decreases cb
  {
    match cb
    case User(u) => Answered(Answer(u, reply))
    case Wrapped(info, next) =>
      if !reply.success || reply.timeout then Deliver(next, reply, procs)
      else if procs == [] then Deliver(next, reply, procs)
      else
        match procs[0]
        case Decrypted(status) => Deliver(next, Reply(true, false, status), procs[1..])
        case Broken(f) =>
          match Judge(info, f.(timeout := false))
          case Retry(i) => Resent(Attempt(i, next))
          case AwaitRefresh(_) => Waiting(Attempt(info, next))
          case Fail(r) => Deliver(next, r, procs[1..])
  }

  // ----- the state machine -----------------------------------------------------------------------------

  /**
   Where requests are: queued for a path, in flight, scheduled to be sent again, waiting for
   a cache refresh, or scheduled to look up their new swarm.  `answers` is the output.
   `accepted`, `resends` and `early` record the history: the accepted requests, the automatic
   re-sends, and the requests that were retried on a failure seen before decryption.
   */
  datatype State = State(
    queue: seq<Attempt>, inFlight: seq<Attempt>, scheduled: seq<Attempt>,
    waiting: seq<Attempt>, refreshed: seq<Attempt>, answers: seq<Answer>,
    accepted: set<Uid>, resends: multiset<Uid>, early: set<Uid>, suspended: bool)

  const INIT := State([], [], [], [], [], [], {}, multiset{}, {}, false)

  /** How the attempt to send goes: no path, or what happens with the path found. */
  datatype Sending = NoPath | BuilderFails | ConnectionInvalid | PastDeadline | OnItsWay

  datatype Arrival = Arrived(status: int) | Rejected(failure: Failure)

  datatype Event =
    | Submit(uid: Uid, info: Info, sending: Sending)
    | RunScheduled(i: nat, sending: Sending)
    | Respond(i: nat, arrival: Arrival, procs: seq<Processed>)
    | CheckTimeouts(now: int)
    | PathBuilt(pathType: PathType, fits: Info -> bool)
    | CloseConnections
    | SetSuspended(value: bool)
    | RefreshComplete
    | RunRefreshed(i: nat, swarm: Option<seq<Node>>, pick: nat)

  function UserOf(cb: Callback): Uid {
    match cb
    case User(u) => u
    case Wrapped(_, next) => UserOf(next)
  }

  function Without<T>(s: seq<T>, i: nat): seq<T>
    requires i < |s|
  {
    s[..i] + s[i + 1..]
  }

  function Place(s: State, d: Delivery): State {
    match d
    case Answered(a) => s.(answers := s.answers + [a])
    case Resent(a) => s.(scheduled := s.scheduled + [a], resends := s.resends + multiset{UserOf(a.cb)})
    case Waiting(a) => s.(waiting := s.waiting + [a])
  }

  /** A failure reported to a callback goes through every handler to the user. */
  function Refuse(s: State, cb: Callback, timeout: bool, status: int): State {
    s.(answers := s.answers + [Answer(UserOf(cb), Reply(false, timeout, status))])
  }

  /** `_send_onion_request` and `send_request`. */
  function Send(s: State, a: Attempt, sending: Sending): State {
    match sending
    case NoPath =>
      if s.suspended then Refuse(s, a.cb, false, ERROR_NETWORK_SUSPENDED) else s.(queue := s.queue + [a])
    case BuilderFails => Refuse(s, a.cb, false, ERROR_BUILDING_ONION_REQUEST)
    case ConnectionInvalid => Refuse(s, a.cb, false, -1)
    case PastDeadline => Refuse(s, a.cb, true, ERROR_PATH_BUILD_TIMEOUT)
    case OnItsWay => s.(inFlight := s.inFlight + [Attempt(a.info, Wrapped(a.info, a.cb))])
  }

  /** A response to a request in flight; a failure caught here is retried behind the response handler. */
  function Receive(s: State, a: Attempt, arrival: Arrival, procs: seq<Processed>): State {
    match arrival
    case Arrived(status) => Place(s, Deliver(a.cb, Reply(true, false, status), procs))
    case Rejected(f) =>
      match Judge(a.info, f)
      case Retry(i) => Place(s, Resent(Attempt(i, a.cb))).(early := s.early + {UserOf(a.cb)})
      case AwaitRefresh(_) => Place(s, Waiting(a)).(early := s.early + {UserOf(a.cb)})
      case Fail(r) => Place(s, Deliver(a.cb, r, procs))
  }

  predicate Expired(a: Attempt, now: int) {
    a.info.deadline.Some? && now > a.info.deadline.value
  }

  function ExpiredAt(now: int): Attempt -> bool {
    (a: Attempt) => Expired(a, now)
  }

  /** The requests a new path of that type can carry. */
  function Resumes(t: PathType, fits: Info -> bool): Attempt -> bool {
    (a: Attempt) => a.info.pathType == t && fits(a.info)
  }

  function Keep(s: seq<Attempt>, drop: Attempt -> bool): seq<Attempt> {
    if s == [] then [] else Keep(s[..|s| - 1], drop) + (if drop(s[|s| - 1]) then [] else [s[|s| - 1]])
  }

  function Taken(s: seq<Attempt>, drop: Attempt -> bool): seq<Attempt> {
    if s == [] then [] else Taken(s[..|s| - 1], drop) + (if drop(s[|s| - 1]) then [s[|s| - 1]] else [])
  }

  function Refusals(s: seq<Attempt>, timeout: bool, status: int): (r: seq<Answer>)
    ensures |r| == |s| && forall i | 0 <= i < |s| :: r[i] == Answer(UserOf(s[i].cb), Reply(false, timeout, status))
  {
    seq(|s|, i requires 0 <= i < |s| => Answer(UserOf(s[i].cb), Reply(false, timeout, status)))
  }

  function Step(s: State, e: Event): State {
    match e
    case Submit(u, info, sending) =>
      if u in s.accepted || info.retry.Some? then s
      else Send(s.(accepted := s.accepted + {u}), Attempt(info, User(u)), sending)
    case RunScheduled(i, sending) =>
      if i >= |s.scheduled| then s
      else Send(s.(scheduled := Without(s.scheduled, i)), s.scheduled[i], sending)
    case Respond(i, arrival, procs) =>
      if i >= |s.inFlight| then s
      else Receive(s.(inFlight := Without(s.inFlight, i)), s.inFlight[i], arrival, procs)
    case CheckTimeouts(now) =>
      if s.suspended then s else
        s.(queue := Keep(s.queue, ExpiredAt(now)),
           answers := s.answers + Refusals(Taken(s.queue, ExpiredAt(now)), true, ERROR_PATH_BUILD_TIMEOUT))
    case PathBuilt(t, fits) =>
      if s.suspended then s else
        s.(queue := Keep(s.queue, Resumes(t, fits)),
           scheduled := s.scheduled + Taken(s.queue, Resumes(t, fits)))
    case CloseConnections =>
      s.(queue := [], answers := s.answers + Refusals(s.queue, false, ERROR_NETWORK_SUSPENDED))
    case SetSuspended(b) => s.(suspended := b)
    case RefreshComplete => s.(waiting := [], refreshed := s.refreshed + s.waiting)
    case RunRefreshed(i, swarm, pick) =>
      if i >= |s.refreshed| then s else
        var a := s.refreshed[i];
        var s1 := s.(refreshed := Without(s.refreshed, i));
        if swarm.None? then s1.(waiting := s1.waiting + [a])
        else if a.info.dest.ToServer? || Others(swarm.value, a.info.dest.node) == [] then Refuse(s1, a.cb, false, 421)
        else
          var others := Others(swarm.value, a.info.dest.node);
          Place(s1, Resent(Attempt(a.info.(dest := ToNode(others[pick % |others|]), retry := Some(SwarmRefresh)), a.cb)))
  }

  function Run(events: seq<Event>): State
    decreases |events|
  {
    if events == [] then INIT else Step(Run(events[..|events| - 1]), events[|events| - 1])
  }
}
