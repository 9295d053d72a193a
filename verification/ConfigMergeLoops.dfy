/**
 The loops of the merging constructor (src/config.cpp:587-690), proved to compute
 `ConfigMerge.MergeSet` of the set of messages, whatever order and repetitions the
 sequence has.
 */
module ConfigMergeLoops {
  import opened Options
  import opened Ordering
  import opened ConfigData
  import opened ConfigDiff
  import opened ConfigApply
  import opened ConfigMerge

  // ----- marking ------------------------------------------------------------------------

  /** Message `j` makes message `i` redundant: it includes it, or is an earlier copy of it. */
  predicate Shadows(msgs: seq<Message>, j: nat, i: nat)
    requires i < |msgs| && j < |msgs|
  {
    i != j && (msgs[i].id in msgs[j].lagged || (j < i && msgs[j].id == msgs[i].id))
  }

  ghost predicate Shadowed(msgs: seq<Message>, i: nat)
    requires i < |msgs|
  {
    exists j: nat :: j < |msgs| && Shadows(msgs, j, i)
  }

  ghost predicate IsMaxSeqno(msgs: seq<Message>, top: int) {
    && (exists i :: 0 <= i < |msgs| && msgs[i].id.seqno == top)
    && (forall i | 0 <= i < |msgs| :: msgs[i].id.seqno <= top)
  }

  ghost predicate Dropped(msgs: seq<Message>, lag: int, top: int, i: nat)
    requires i < |msgs|
  {
    Shadowed(msgs, i) || msgs[i].id.seqno + lag <= top
  }

  method MarkRedundant(msgs: seq<Message>, lag: int) returns (redundant: seq<bool>, top: int)
    requires msgs != []
    ensures IsMaxSeqno(msgs, top)
    ensures |redundant| == |msgs| && forall i: nat | i < |msgs| :: redundant[i] <==> Dropped(msgs, lag, top, i)
  {
    redundant, top := seq(|msgs|, _ => false), msgs[0].id.seqno;
    for i := 0 to |msgs|
      invariant |redundant| == |msgs|
      invariant forall p: nat | p < |msgs| :: redundant[p] <==> p < i && Shadowed(msgs, p)
      invariant exists p :: 0 <= p < |msgs| && msgs[p].id.seqno == top
      invariant forall p | 0 <= p < i :: msgs[p].id.seqno <= top
    {
      if msgs[i].id.seqno > top { top := msgs[i].id.seqno; }
      var found := FindShadow(msgs, i);
      redundant := redundant[i := found];
    }
    for i := 0 to |msgs|
      invariant |redundant| == |msgs|
      invariant forall p: nat | p < |msgs| ::
                  redundant[p] <==> if p < i then Dropped(msgs, lag, top, p) else Shadowed(msgs, p)
    {
      if msgs[i].id.seqno + lag <= top { redundant := redundant[i := true]; }
    }
  }

  method FindShadow(msgs: seq<Message>, i: nat) returns (found: bool)
    requires i < |msgs|
    ensures found <==> Shadowed(msgs, i)
  {
    found := false;
    var j := 0;
    while !found && j < |msgs|
      invariant j <= |msgs| && (found ==> Shadowed(msgs, i))
      invariant !found ==> forall p: nat | p < j :: !Shadows(msgs, p, i)
    {
      if i != j {
        if msgs[i].id in msgs[j].lagged {
          found := true;
        } else if j < i && msgs[j].id == msgs[i].id {
          found := true;
        }
        assert found <==> Shadows(msgs, j, i);
      }
      j := j + 1;
    }
  }

  /** The messages that are not marked, in their order. */
  function Keep(msgs: seq<Message>, redundant: seq<bool>): seq<Message>
    requires |msgs| == |redundant|
  {
    if msgs == [] then []
    else Keep(msgs[..|msgs| - 1], redundant[..|msgs| - 1]) +
         (if redundant[|msgs| - 1] then [] else [msgs[|msgs| - 1]])
  }

  lemma {:induction false} KeepMembers(msgs: seq<Message>, redundant: seq<bool>, m: Message)
    requires |msgs| == |redundant|
    ensures m in Keep(msgs, redundant) <==> exists i :: 0 <= i < |msgs| && !redundant[i] && msgs[i] == m
  {
    if msgs != [] {
      var n := |msgs| - 1;
      KeepMembers(msgs[..n], redundant[..n], m);
      if m in Keep(msgs[..n], redundant[..n]) {
        var i :| 0 <= i < n && !redundant[..n][i] && msgs[..n][i] == m;
        assert !redundant[i] && msgs[i] == m;
      }
      if i :| 0 <= i < |msgs| && !redundant[i] && msgs[i] == m {
        assert i == n || (!redundant[..n][i] && msgs[..n][i] == m);
      }
    }
  }

  lemma {:induction false} KeepDistinct(msgs: seq<Message>, redundant: seq<bool>)
    requires |msgs| == |redundant|
    requires forall i, j | 0 <= i < j < |msgs| && !redundant[i] && !redundant[j] :: msgs[i] != msgs[j]
    ensures Distinct(Keep(msgs, redundant))
  {
    if msgs != [] {
      var n := |msgs| - 1;
      KeepDistinct(msgs[..n], redundant[..n]);
      KeepMembers(msgs[..n], redundant[..n], msgs[n]);
    }
  }

  /** The unmarked messages are exactly the survivors, each once. */
  lemma KeepIsSurvivors(msgs: seq<Message>, lag: int, redundant: seq<bool>, top: int)
    requires msgs != [] && Mergeable(Elements(msgs), lag)
    requires IsMaxSeqno(msgs, top)
    requires |redundant| == |msgs| && forall i: nat | i < |msgs| :: redundant[i] <==> Dropped(msgs, lag, top, i)
    ensures top == MaxSeqno(Elements(msgs))
    ensures Elements(Keep(msgs, redundant)) == Survivors(Elements(msgs), lag)
    ensures Distinct(Keep(msgs, redundant))
  {
    var s := Elements(msgs);
    TopIsMaxSeqno(msgs, top);
    forall i, j | 0 <= i < j < |msgs| && !redundant[i] && !redundant[j] ensures msgs[i] != msgs[j] {
      assert !Shadows(msgs, i, j);
    }
    KeepDistinct(msgs, redundant);
    forall m ensures m in Keep(msgs, redundant) <==> m in Survivors(s, lag) {
      KeepMembers(msgs, redundant, m);
      if m in s { SurvivorIndex(msgs, lag, top, m); }
    }
  }

  lemma TopIsMaxSeqno(msgs: seq<Message>, top: int)
    requires msgs != [] && IdsIdentify(Elements(msgs)) && IsMaxSeqno(msgs, top)
    ensures top == MaxSeqno(Elements(msgs))
  {
    var s := Elements(msgs);
    var p :| 0 <= p < |msgs| && msgs[p].id.seqno == top;
    assert msgs[p] in s;
    GreatestIsMaxSeqno(s, msgs[p]);
    assert Greatest(s) in msgs;
  }

  lemma SurvivorIndex(msgs: seq<Message>, lag: int, top: int, m: Message)
    requires m in msgs && Mergeable(Elements(msgs), lag) && top == MaxSeqno(Elements(msgs))
    ensures m in Survivors(Elements(msgs), lag) <==>
            exists i: nat :: i < |msgs| && !Dropped(msgs, lag, top, i) && msgs[i] == m
  {
    var s := Elements(msgs);
    if Included(m, s) {
      var o :| o in s && m.id in o.lagged;
      var j: nat :| j < |msgs| && msgs[j] == o;
      forall i: nat | i < |msgs| && msgs[i] == m ensures Shadowed(msgs, i) {
        assert Parsed(m, lag);
        assert Shadows(msgs, j, i);
      }
    } else if !TooOld(m, s, lag) {
      var i := FirstIndex(msgs, m);
      forall j: nat | j < |msgs| ensures !Shadows(msgs, j, i) { assert msgs[j] in s; }
      assert !Dropped(msgs, lag, top, i);
    }
  }

  lemma FirstIndex(msgs: seq<Message>, m: Message) returns (i: nat)
    requires m in msgs
    ensures i < |msgs| && msgs[i] == m && forall j | 0 <= j < i :: msgs[j] != m
  {
    i := 0;
    while msgs[i] != m
      invariant i < |msgs| && m in msgs[i..]
      invariant forall j | 0 <= j < i :: msgs[j] != m
      decreases |msgs| - i
    {
      i := i + 1;
    }
  }

  // ----- sorting --------------------------------------------------------------------------

  ghost predicate Descending(s: seq<Message>) {
    forall i, j | 0 <= i < j < |s| :: IdLess(s[j].id, s[i].id)
  }

  /** `std::sort` with the greater-than comparator. */
  method SortDescending(kept: seq<Message>) returns (r: seq<Message>)
    requires Distinct(kept) && IdsIdentify(Elements(kept))
    ensures Descending(r) && Elements(r) == Elements(kept) && |r| == |kept|
  {
    r := [];
    for i := 0 to |kept|
      invariant Descending(r) && |r| == i
      invariant forall x :: x in r <==> x in kept[..i]
    {
      var m := kept[i];
      assert m !in kept[..i] && kept[..i + 1] == kept[..i] + [m];
      var p := 0;
      while p < |r| && IdLess(m.id, r[p].id)
        invariant p <= |r| && forall q | 0 <= q < p :: IdLess(m.id, r[q].id)
      {
        p := p + 1;
      }
      InsertKeepsDescending(r, p, m, kept);
      assert forall x :: x in r[..p] + [m] + r[p..] <==> x in r || x == m by { assert r == r[..p] + r[p..]; }
      r := r[..p] + [m] + r[p..];
    }
    assert kept[..|kept|] == kept;
  }

  lemma InsertKeepsDescending(r: seq<Message>, p: nat, m: Message, all: seq<Message>)
    requires Descending(r) && p <= |r| && IdsIdentify(Elements(all))
    requires m in all && m !in r && forall x | x in r :: x in all
    requires forall q | 0 <= q < p :: IdLess(m.id, r[q].id)
    requires p < |r| ==> !IdLess(m.id, r[p].id)
    ensures Descending(r[..p] + [m] + r[p..])
  {
    forall q | p <= q < |r| ensures IdLess(r[q].id, m.id) {
      assert r[p] in r && r[p] in Elements(all) && m in Elements(all);
      IdTotal(m.id, r[p].id);
      if p < q { IdTransitive(r[q].id, r[p].id, m.id); }
    }
  }

  lemma DescendingGreatest(s: seq<Message>, m: Message, i: nat)
    requires Descending(s) && i < |s| && m == s[i] && IdsIdentify(Elements(s))
    ensures IsGreatest(m, Elements(s[i..]))
  {
    forall o | o in Elements(s[i..]) && o != m ensures IdLess(o.id, m.id) {
      var j :| i <= j < |s| && s[j] == o;
    }
    assert s[i..][0] == m;
  }

  // ----- collecting the replay --------------------------------------------------------------

  /** The changes a message carries, each with the message's data as its source. */
  function StepsOf(m: Message): map<Id, Step> {
    (map i | i in m.lagged :: Step(m.data, m.lagged[i])) + map[m.id := Step(m.data, m.diff)]
  }

  /** What inserting without replacing collects, message by message. */
  function Collected(s: seq<Message>): map<Id, Step> {
    if s == [] then map[] else StepsOf(s[|s| - 1]) + Collected(s[..|s| - 1])
  }

  method CollectReplay(s: seq<Message>) returns (replay: map<Id, Step>)
    ensures replay == Collected(s)
  {
    replay := map[];
    for c := 0 to |s|
      invariant replay == Collected(s[..c])
    {
      assert s[..c + 1][..c] == s[..c];
      replay := Emplace(replay, s[c]);
    }
    assert s[..|s|] == s;
  }

  /** A message's lagged changes restricted to the ids already visited. */
  ghost function LaggedOn(m: Message, done: set<Id>): map<Id, Step> {
    map i | i in m.lagged && i in done :: Step(m.data, m.lagged[i])
  }

  lemma EmplaceStep(m: Message, done: set<Id>, start: map<Id, Step>, i: Id)
    requires i in m.lagged
    ensures LaggedOn(m, done + {i}) + start ==
            if i in LaggedOn(m, done) + start then LaggedOn(m, done) + start
            else (LaggedOn(m, done) + start)[i := Step(m.data, m.lagged[i])]
  {
  }

  lemma EmplaceEnds(m: Message, replay: map<Id, Step>, start: map<Id, Step>)
    requires start == if m.id in replay then replay else replay[m.id := Step(m.data, m.diff)]
    ensures LaggedOn(m, {}) + start == start
    ensures LaggedOn(m, m.lagged.Keys) + start == StepsOf(m) + replay
  {
  }

  method Emplace(replay: map<Id, Step>, m: Message) returns (r: map<Id, Step>)
    ensures r == StepsOf(m) + replay
  {
    r := replay;
    if m.id !in r { r := r[m.id := Step(m.data, m.diff)]; }
    ghost var start := r;
    var ids := Ids(m.lagged.Keys);
    ghost var done: set<Id> := {};
    EmplaceEnds(m, replay, start);
    for p := 0 to |ids|
      invariant done <= m.lagged.Keys && Visited(ids, p, done)
      invariant r == LaggedOn(m, done) + start
    {
      var i := ids[p];
      VisitNext(ids, p, done);
      EmplaceStep(m, done, start, i);
      if i !in r { r := r[i := Step(m.data, m.lagged[i])]; }
      done := done + {i};
    }
    AllVisited(ids, done, m.lagged.Keys);
  }

  lemma {:induction false} CollectedLookup(s: seq<Message>, i: Id, f: nat)
    requires f < |s| && Carries(s[f], i) && forall q | 0 <= q < f :: !Carries(s[q], i)
    ensures Get(Collected(s), i) == Some(Take(s[f], i))
  {
    var n := |s| - 1;
    if f < n { CollectedLookup(s[..n], i, f); } else { NotCollected(s[..n], i); }
  }

  lemma {:induction false} NotCollected(s: seq<Message>, i: Id)
    requires forall q | 0 <= q < |s| :: !Carries(s[q], i)
    ensures i !in Collected(s)
  {
    if s != [] { NotCollected(s[..|s| - 1], i); }
  }

  lemma FirstIsCarrier(s: seq<Message>, i: Id, f: nat)
    requires Descending(s) && IdsIdentify(Elements(s))
    requires f < |s| && Carries(s[f], i) && forall q | 0 <= q < f :: !Carries(s[q], i)
    ensures i in KnownIds(Elements(s)) && Carrier(Elements(s), i) == s[f]
  {
    var all := Elements(s);
    assert s[f] in all && i in {s[f].id} + s[f].lagged.Keys;
    forall o | o in CarriersOf(all, i) && o != s[f] ensures IdLess(o.id, s[f].id) {
      var q :| 0 <= q < |s| && s[q] == o;
    }
    GreatestUnique(s[f], CarriersOf(all, i));
  }

  /** Collected greatest first, each change comes from its greatest carrier. */
  lemma CollectedIsReplayMap(s: seq<Message>, i: Id)
    requires Descending(s) && IdsIdentify(Elements(s))
    ensures Get(Collected(s), i) == Get(ReplayMap(Elements(s)), i)
  {
    if p: nat :| p < |s| && Carries(s[p], i) {
      var f := FirstCarrier(s, i, p);
      CollectedLookup(s, i, f);
      FirstIsCarrier(s, i, f);
    } else {
      NotCollected(s, i);
      assert i !in KnownIds(Elements(s));
    }
  }

  lemma FirstCarrier(s: seq<Message>, i: Id, p: nat) returns (f: nat)
    requires p < |s| && Carries(s[p], i)
    ensures f < |s| && Carries(s[f], i) && forall q | 0 <= q < f :: !Carries(s[q], i)
  {
    f := 0;
    while !Carries(s[f], i)
      invariant f <= p && forall q | 0 <= q < f :: !Carries(s[q], i)
      decreases p - f
    {
      f := f + 1;
    }
  }

  // ----- the whole constructor ------------------------------------------------------------

  ghost function ChangesOn(replay: map<Id, Step>, done: set<Id>): map<Id, Diffs> {
    map i | i in replay && i in done :: replay[i].diff
  }

  lemma ChangesOnStep(replay: map<Id, Step>, done: set<Id>, i: Id)
    requires i in replay
    ensures ChangesOn(replay, done + {i}) == ChangesOn(replay, done)[i := replay[i].diff]
    ensures ChangesOn(replay, {}) == map[] && ChangesOn(replay, replay.Keys) == Changes(replay)
  {
  }

  lemma RunOneStep(data: Dict, ids: seq<Id>, c: nat, replay: map<Id, Step>)
    requires c < |ids|
    ensures RunSteps(data, ids[c..], replay) == RunSteps(RunStep(data, ids[c], replay), ids[c + 1..], replay)
  {
    assert ids[c..][0] == ids[c] && ids[c..][1..] == ids[c + 1..];
  }

  ghost predicate NoneBreaks(replay: map<Id, Step>, done: set<Id>) {
    forall i | i in replay && i in done :: !Breaks(replay[i].diff, replay[i].source)
  }

  /** The first `c` changes have been applied to `data`, giving `d`, and are in `lagged`. */
  ghost predicate Replaying(data: Dict, replay: map<Id, Step>, c: nat, d: Dict, lagged: map<Id, Diffs>, done: set<Id>) {
    var ids := Ids(replay.Keys);
    && c <= |ids| && done <= replay.Keys && Visited(ids, c, done)
    && RunSteps(d, ids[c..], replay) == RunSteps(data, ids, replay)
    && lagged == ChangesOn(replay, done) && NoneBreaks(replay, done)
  }

  lemma ReplayStarts(data: Dict, replay: map<Id, Step>)
    ensures Replaying(data, replay, 0, data, map[], {})
  {
    var ids := Ids(replay.Keys);
    assert ids[0..] == ids;
  }

  lemma ReplayNext(data: Dict, replay: map<Id, Step>, c: nat, d: Dict, lagged: map<Id, Diffs>, done: set<Id>)
    requires Replaying(data, replay, c, d, lagged, done) && c < |Ids(replay.Keys)|
    ensures var i := Ids(replay.Keys)[c];
            && i in replay
            && (!Breaks(replay[i].diff, replay[i].source) ==>
                  Replaying(data, replay, c + 1, Apply(d, replay[i].diff, replay[i].source), lagged[i := replay[i].diff], done + {i}))
  {
    var ids := Ids(replay.Keys);
    VisitNext(ids, c, done);
    RunOneStep(d, ids, c, replay);
    ChangesOnStep(replay, done, ids[c]);
  }

  lemma ReplayEnds(data: Dict, replay: map<Id, Step>, d: Dict, lagged: map<Id, Diffs>, done: set<Id>)
    requires Replaying(data, replay, |Ids(replay.Keys)|, d, lagged, done)
    ensures !ReplayBreaks(replay) && d == RunSteps(data, Ids(replay.Keys), replay) && lagged == Changes(replay)
  {
    var ids := Ids(replay.Keys);
    AllVisited(ids, done, replay.Keys);
    assert ids[|ids|..] == [];
  }

  /** Applies the collected changes in ascending order; one that cannot be applied stops it. */
  method ReplayAll(data: Dict, replay: map<Id, Step>) returns (r: Result<Dict>, lagged: map<Id, Diffs>)
    ensures r == if ReplayBreaks(replay) then Err else Ok(RunSteps(data, Ids(replay.Keys), replay))
    ensures r.Ok? ==> lagged == Changes(replay)
  {
    var ids := Ids(replay.Keys);
    var d := data;
    lagged := map[];
    ghost var done: set<Id> := {};
    ReplayStarts(data, replay);
    for c := 0 to |ids|
      invariant Replaying(data, replay, c, d, lagged, done)
    {
      ReplayNext(data, replay, c, d, lagged, done);
      var i := ids[c];
      var applied := ApplyInPlace(d, replay[i].diff, replay[i].source);
      if applied.Err? { return Err, lagged; }
      d, lagged, done := applied.value, lagged[i := replay[i].diff], done + {i};
    }
    ReplayEnds(data, replay, d, lagged, done);
    r := Ok(d);
  }

  /** `std::max_element` with the comparator that puts redundant messages first. */
  method BestIndex(msgs: seq<Message>, redundant: seq<bool>) returns (best: nat)
    requires msgs != [] && |redundant| == |msgs|
    requires exists i :: 0 <= i < |msgs| && !redundant[i]
    ensures best < |msgs| && !redundant[best]
    ensures forall i | 0 <= i < |msgs| && !redundant[i] :: !IdLess(msgs[best].id, msgs[i].id)
  {
    best := 0;
    IdTotal(msgs[0].id, msgs[0].id);
    for i := 1 to |msgs|
      invariant best < i
      invariant redundant[best] ==> forall p | 0 <= p < i :: redundant[p]
      invariant forall p | 0 <= p < i && !redundant[p] :: !IdLess(msgs[best].id, msgs[p].id)
    {
      var less := if redundant[best] != redundant[i] then redundant[best] else IdLess(msgs[best].id, msgs[i].id);
      if less {
        forall p | 0 <= p < i && !redundant[p] ensures !IdLess(msgs[i].id, msgs[p].id) {
          NotBelow(msgs[best].id, msgs[i].id, msgs[p].id);
        }
        best := i;
      }
      IdTotal(msgs[i].id, msgs[i].id);
    }
  }

  lemma NotBelow(a: Id, b: Id, c: Id)
    requires IdLess(a, b) && !IdLess(a, c)
    ensures !IdLess(b, c)
  {
    if IdLess(b, c) { IdTransitive(a, b, c); }
  }

  method CountKept(redundant: seq<bool>, ghost msgs: seq<Message>) returns (n: nat)
    requires |redundant| == |msgs|
    ensures n == |Keep(msgs, redundant)|
  {
    n := 0;
    for i := 0 to |redundant|
      invariant n == |Keep(msgs[..i], redundant[..i])|
    {
      assert msgs[..i + 1][..i] == msgs[..i] && redundant[..i + 1][..i] == redundant[..i];
      if !redundant[i] { n := n + 1; }
    }
    assert msgs[..|msgs|] == msgs && redundant[..|redundant|] == redundant;
  }

  method EraseRedundant(msgs: seq<Message>, redundant: seq<bool>) returns (kept: seq<Message>)
    requires |redundant| == |msgs|
    ensures kept == Keep(msgs, redundant)
  {
    kept := [];
    for i := 0 to |msgs|
      invariant kept == Keep(msgs[..i], redundant[..i])
    {
      assert msgs[..i + 1][..i] == msgs[..i] && redundant[..i + 1][..i] == redundant[..i];
      if !redundant[i] { kept := kept + [msgs[i]]; }
    }
    assert msgs[..|msgs|] == msgs && redundant[..|redundant|] == redundant;
  }

  lemma OneKept(kept: seq<Message>, s: set<Message>, g: Message)
    requires Distinct(kept) && Elements(kept) == s && g in s
    ensures |kept| == 1 <==> s == {g}
  {
    assert g in kept;
    if |kept| == 1 {
      assert kept == [kept[0]] && g == kept[0];
      assert forall x | x in s :: x in kept;
    } else if |kept| > 1 {
      assert kept[0] in s && kept[1] in s && kept[0] != kept[1];
    }
  }

  /** The set of the messages in a sequence. */
  ghost function MessageSet(msgs: seq<Message>): (s: set<Message>)
    ensures s == Elements(msgs) && (msgs != [] <==> s != {})
  {
    assert msgs != [] ==> msgs[0] in Elements(msgs);
    Elements(msgs)
  }

  /** `m` is above every other of the messages in (seqno, hash). */
  ghost predicate Exceeds(m: Message, ms: seq<Message>) {
    forall o | o in ms :: o == m || o.id.seqno < m.id.seqno || (o.id.seqno == m.id.seqno && StrLess(o.id.hash, m.id.hash))
  }

  lemma UnmergedExceeds(msgs: seq<Message>, lag: int, canMerge: bool)
    requires Mergeable(MessageSet(msgs), lag) && msgs != []
    ensures var r := MergeSet(MessageSet(msgs), lag, canMerge); r.Unmerged? ==> Exceeds(r.message, msgs)
    ensures !canMerge ==> MergeSet(MessageSet(msgs), lag, canMerge).Unmerged?
  {
    UnmergedIsGreatest(MessageSet(msgs), lag, canMerge);
  }

  /**
   Convergence: the outcome is a function of the set of valid messages alone.  Any
   order and any repetition of the same messages gives the same seqno, data and
   lagged diffs, in all outcomes; `unmerged` is the index of a message taken as it is.
   The construction fails without any valid message, and when the merge breaks.
   */
  method Merge(msgs: seq<Message>, lag: int, canMerge: bool) returns (r: Option<Outcome>, unmerged: Option<nat>)
    requires Mergeable(MessageSet(msgs), lag)
    ensures r == if msgs == [] then None else Some(MergeSet(MessageSet(msgs), lag, canMerge))
    ensures unmerged.Some? <==> r.Some? && r.value.Unmerged?
    ensures unmerged.Some? ==> unmerged.value < |msgs| && msgs[unmerged.value] == r.value.message
    ensures unmerged.Some? ==> Exceeds(r.value.message, msgs)
    ensures msgs != [] && !canMerge ==> unmerged.Some?
  {
    if msgs == [] { return None, None; }
    UnmergedExceeds(msgs, lag, canMerge);
    var redundant, top := MarkRedundant(msgs, lag);
    KeepIsSurvivors(msgs, lag, redundant, top);
    ghost var s := MessageSet(msgs);
    ghost var g, sv := Greatest(s), Survivors(s, lag);
    GreatestSurvives(s, lag);
    OneKept(Keep(msgs, redundant), sv, g);
    KeptIndices(msgs, redundant, sv, g);
    var outcome;
    outcome, unmerged := Conclude(msgs, redundant, top, canMerge, sv, g);
    r := Some(outcome);
  }

  /** The unmarked messages are those of `sv`, of which `g` is the greatest. */
  ghost predicate MarkedFor(msgs: seq<Message>, redundant: seq<bool>, sv: set<Message>, g: Message) {
    && |redundant| == |msgs| && IdsIdentify(sv) && IsGreatest(g, sv)
    && (|Keep(msgs, redundant)| == 1 <==> sv == {g})
    && (forall i | 0 <= i < |msgs| && !redundant[i] :: msgs[i] in sv)
    && (exists i :: 0 <= i < |msgs| && !redundant[i] && msgs[i] == g)
  }

  /** The three ways to end, once the redundant messages are marked. */
  method Conclude(msgs: seq<Message>, redundant: seq<bool>, top: int, canMerge: bool, ghost sv: set<Message>, ghost g: Message)
    returns (r: Outcome, unmerged: Option<nat>)
    requires MarkedFor(msgs, redundant, sv, g) && Distinct(Keep(msgs, redundant)) && Elements(Keep(msgs, redundant)) == sv
    ensures r == if sv == {g} || !canMerge then Unmerged(g)
                 else if ReplayBreaks(ReplayMap(sv)) then Broken
                 else Merged(top + 1, Prune(ReplayedData(sv)), Changes(ReplayMap(sv)))
    ensures unmerged.Some? <==> r.Unmerged?
    ensures unmerged.Some? ==> unmerged.value < |msgs| && msgs[unmerged.value] == r.message
  {
    var n := CountKept(redundant, msgs);
    if n == 1 {
      var i := FirstUnmarked(redundant);
      assert msgs[i] in sv;
      return Unmerged(msgs[i]), Some(i);
    }
    if !canMerge {
      var best := BestIndex(msgs, redundant);
      BestIsGreatest(msgs, redundant, best, sv, g);
      return Unmerged(msgs[best]), Some(best);
    }
    var kept := EraseRedundant(msgs, redundant);
    var data, lagged := MergeKept(kept, sv);
    unmerged := None;
    r := if data.Ok? then Merged(top + 1, data.value, lagged) else Broken;
  }

  lemma BestIsGreatest(msgs: seq<Message>, redundant: seq<bool>, best: nat, sv: set<Message>, g: Message)
    requires |redundant| == |msgs| && best < |msgs| && !redundant[best]
    requires forall i | 0 <= i < |msgs| && !redundant[i] :: !IdLess(msgs[best].id, msgs[i].id)
    requires (forall i | 0 <= i < |msgs| && !redundant[i] :: msgs[i] in sv) && IsGreatest(g, sv)
    requires exists i :: 0 <= i < |msgs| && !redundant[i] && msgs[i] == g
    ensures msgs[best] == g
  {
  }

  method MergeKept(kept: seq<Message>, ghost sv: set<Message>) returns (data: Result<Dict>, lagged: map<Id, Diffs>)
    requires Distinct(kept) && Elements(kept) == sv && IdsIdentify(sv) && sv != {}
    ensures data == if ReplayBreaks(ReplayMap(sv)) then Err else Ok(Prune(ReplayedData(sv)))
    ensures data.Ok? ==> lagged == Changes(ReplayMap(sv))
  {
    var sorted := SortDescending(kept);
    var replay := CollectReplay(sorted);
    SortedReplay(sorted, sv, Greatest(sv), replay);
    var replayed;
    replayed, lagged := ReplayAll(sorted[0].data, replay);
    if replayed.Err? { return Err, lagged; }
    var pruned, _, _ := PruneInPlace(replayed.value);
    data := Ok(pruned);
  }

  lemma KeptIndices(msgs: seq<Message>, redundant: seq<bool>, sv: set<Message>, g: Message)
    requires |msgs| == |redundant| && Elements(Keep(msgs, redundant)) == sv && g in sv
    ensures forall i | 0 <= i < |msgs| && !redundant[i] :: msgs[i] in sv
    ensures exists i :: 0 <= i < |msgs| && !redundant[i] && msgs[i] == g
  {
    forall i | 0 <= i < |msgs| && !redundant[i] ensures msgs[i] in sv { KeepMembers(msgs, redundant, msgs[i]); }
    assert g in Keep(msgs, redundant);
    KeepMembers(msgs, redundant, g);
  }

  method FirstUnmarked(redundant: seq<bool>) returns (i: nat)
    requires exists p :: 0 <= p < |redundant| && !redundant[p]
    ensures i < |redundant| && !redundant[i]
  {
    i := 0;
    while redundant[i]
      invariant i < |redundant| && exists p :: i <= p < |redundant| && !redundant[p]
      decreases |redundant| - i
    {
      i := i + 1;
    }
  }

  lemma SortedReplay(sorted: seq<Message>, sv: set<Message>, g: Message, replay: map<Id, Step>)
    requires Descending(sorted) && Elements(sorted) == sv && IdsIdentify(sv)
    requires sv != {} && g == Greatest(sv)
    requires replay == Collected(sorted)
    ensures sorted != [] && sorted[0] == g && replay == ReplayMap(sv)
  {
    assert g in sorted;
    DescendingGreatest(sorted, sorted[0], 0);
    assert sorted[0..] == sorted;
    GreatestUnique(sorted[0], sv);
    forall i ensures Get(replay, i) == Get(ReplayMap(sv), i) { CollectedIsReplayMap(sorted, i); }
    SameLookups(replay, ReplayMap(sv));
  }
}
