/**
 The merging constructor of a config message (src/config.cpp:563-690).

 The specification speaks of the *set* of valid input messages only; the method
 `Merge` follows the code's loops over the *sequence* it is given and is proved to
 compute what the specification says.
 */
module ConfigMerge {
  import opened Options
  import opened Ordering
  import opened ConfigData
  import opened ConfigDiff
  import opened ConfigApply

  datatype Id = Id(seqno: int, hash: string)

  predicate IdLess(a: Id, b: Id) {
    a.seqno < b.seqno || (a.seqno == b.seqno && StrLess(a.hash, b.hash))
  }

  lemma IdOrder()
    ensures StrictTotal(IdLess)
  {
    forall a ensures !IdLess(a, a) { StrIrreflexive(a.hash); }
    forall a, b, c | IdLess(a, b) && IdLess(b, c) ensures IdLess(a, c) {
      if a.seqno == c.seqno { StrTransitive(a.hash, b.hash, c.hash); }
    }
    forall a, b | a != b ensures IdLess(a, b) || IdLess(b, a) { StrConnected(a.hash, b.hash); }
  }

  lemma IdTotal(a: Id, b: Id)
    ensures !IdLess(a, a) && !(IdLess(a, b) && IdLess(b, a)) && (a == b || IdLess(a, b) || IdLess(b, a))
  {
    StrIrreflexive(a.hash);
    StrConnected(a.hash, b.hash);
    if StrLess(a.hash, b.hash) && StrLess(b.hash, a.hash) { StrTransitive(a.hash, b.hash, a.hash); }
  }

  lemma IdTransitive(a: Id, b: Id, c: Id)
    requires IdLess(a, b) && IdLess(b, c)
    ensures IdLess(a, c)
  {
    if a.seqno == c.seqno { StrTransitive(a.hash, b.hash, c.hash); }
  }

  /** The keys of a `std::map<seqno_hash_t, ...>` in iteration order. */
  function Ids(s: set<Id>): (r: seq<Id>)
    ensures Sorted(r, IdLess) && Distinct(r)
    ensures forall x :: x in r <==> x in s
  {
    IdOrder();
    Ascending(s, IdLess)
  }

  datatype Message = Message(id: Id, data: Dict, diff: Diffs, lagged: map<Id, Diffs>)

  const HASH_SIZE := 32

  /** What the parser guarantees of a message (src/config.cpp:270-294, 322-330). */
  ghost predicate Parsed(m: Message, lag: int) {
    && Pruned(m.data) && |m.id.hash| == HASH_SIZE
    && forall i | i in m.lagged :: m.id.seqno - lag < i.seqno < m.id.seqno && |i.hash| == HASH_SIZE
  }

  /** The lagged diffs that a message with this seqno is serialised with (src/config.cpp:751-754). */
  function Window(lagged: map<Id, Diffs>, seqno: int, lag: int): map<Id, Diffs> {
    map i | i in lagged && seqno - lag < i.seqno < seqno :: lagged[i]
  }

  /** The hash identifies the message. */
  ghost predicate IdsIdentify(s: set<Message>) {
    forall a, b | a in s && b in s && a.id == b.id :: a == b
  }

  ghost predicate Mergeable(s: set<Message>, lag: int) {
    && lag >= 1 && IdsIdentify(s)
    && forall m | m in s :: Parsed(m, lag)
  }

  // ----- specification -----------------------------------------------------------------

  ghost predicate IsGreatest(m: Message, s: set<Message>) {
    m in s && forall o | o in s && o != m :: IdLess(o.id, m.id)
  }

  lemma GreatestExists(s: set<Message>) returns (m: Message)
    requires IdsIdentify(s) && s != {}
    ensures IsGreatest(m, s)
  {
    m :| m in s;
    var rest := s - {m};
    assert forall o :: o in s <==> o == m || o in rest;
    if rest != {} {
      var n := GreatestExists(rest);
      IdTotal(m.id, n.id);
      if IdLess(m.id, n.id) {
        m := n;
      } else {
        forall o | o in rest && o != n ensures IdLess(o.id, m.id) { IdTransitive(o.id, n.id, m.id); }
      }
    }
  }

  ghost function Greatest(s: set<Message>): (m: Message)
    requires IdsIdentify(s) && s != {}
    ensures IsGreatest(m, s)
  {
    assert exists m :: IsGreatest(m, s) by { var w := GreatestExists(s); }
    var m :| IsGreatest(m, s);
    m
  }

  lemma GreatestUnique(m: Message, s: set<Message>)
    requires IdsIdentify(s) && IsGreatest(m, s)
    ensures m == Greatest(s)
  {
    IdTotal(m.id, Greatest(s).id);
  }

  ghost function MaxSeqno(s: set<Message>): int
    requires IdsIdentify(s) && s != {}
  {
    Greatest(s).id.seqno
  }

  /** Some other message already contains the change of `m`. */
  ghost predicate Included(m: Message, s: set<Message>) {
    exists o :: o in s && m.id in o.lagged
  }

  ghost predicate TooOld(m: Message, s: set<Message>, lag: int)
    requires IdsIdentify(s) && s != {}
  {
    m.id.seqno + lag <= MaxSeqno(s)
  }

  ghost function Survivors(s: set<Message>, lag: int): (r: set<Message>)
    requires IdsIdentify(s) && s != {}
    ensures r <= s && IdsIdentify(r)
  {
    set m | m in s && !Included(m, s) && !TooOld(m, s, lag)
  }

  predicate Carries(m: Message, i: Id) {
    i == m.id || i in m.lagged
  }

  function ChangeOf(m: Message, i: Id): Diffs
    requires Carries(m, i)
  {
    if i == m.id then m.diff else m.lagged[i]
  }

  /** Every change that some message of `s` knows of. */
  ghost function KnownIds(s: set<Message>): set<Id> {
    set m, i | m in s && i in {m.id} + m.lagged.Keys :: i
  }

  ghost function CarriersOf(s: set<Message>, i: Id): set<Message> {
    set m | m in s && Carries(m, i)
  }

  /** The greatest message of `s` that knows of the change. */
  ghost function Carrier(s: set<Message>, i: Id): (m: Message)
    requires IdsIdentify(s) && i in KnownIds(s)
    ensures m in s && Carries(m, i)
  {
    var w :| w in s && i in {w.id} + w.lagged.Keys;
    assert w in CarriersOf(s, i);
    Greatest(CarriersOf(s, i))
  }

  datatype Step = Step(source: Dict, diff: Diffs)

  function Take(m: Message, i: Id): Step
    requires Carries(m, i)
  {
    Step(m.data, ChangeOf(m, i))
  }

  /** Each known change once, with the data of its greatest carrier as its source. */
  ghost function ReplayMap(s: set<Message>): (r: map<Id, Step>)
    requires IdsIdentify(s)
    ensures r.Keys == KnownIds(s)
  {
    map i | i in KnownIds(s) :: Take(Carrier(s, i), i)
  }

  function RunStep(data: Dict, i: Id, replay: map<Id, Step>): Dict {
    if i in replay then Apply(data, replay[i].diff, replay[i].source) else data
  }

  /** Apply the steps of `ids` in order. */
  function RunSteps(data: Dict, ids: seq<Id>, replay: map<Id, Step>): Dict
    decreases |ids|
  {
    if ids == [] then data else RunSteps(RunStep(data, ids[0], replay), ids[1..], replay)
  }

  function Changes(replay: map<Id, Step>): map<Id, Diffs> {
    map i | i in replay :: replay[i].diff
  }

  /** The dict before the final pruning. */
  ghost function ReplayedData(s: set<Message>): Dict
    requires IdsIdentify(s) && s != {}
  {
    RunSteps(Greatest(s).data, Ids(ReplayMap(s).Keys), ReplayMap(s))
  }

  /** Some step cannot be applied: it has a stray set change where its source has a set. */
  ghost predicate ReplayBreaks(replay: map<Id, Step>) {
    exists i :: i in replay && Breaks(replay[i].diff, replay[i].source)
  }

  /** `Broken` is a merge that stops with an error although every message was parsed. */
  datatype Outcome =
    | Unmerged(message: Message)
    | Merged(seqno: int, data: Dict, lagged: map<Id, Diffs>)
    | Broken

  /** The result of merging the set `s`; `canMerge` is `!(verifier && !signer)`. */
  ghost function MergeSet(s: set<Message>, lag: int, canMerge: bool): Outcome
    requires Mergeable(s, lag) && s != {}
  {
    GreatestSurvives(s, lag);
    var kept := Survivors(s, lag);
    if kept == {Greatest(s)} || !canMerge then Unmerged(Greatest(s))
    else if ReplayBreaks(ReplayMap(kept)) then Broken
    else Merged(MaxSeqno(s) + 1, Prune(ReplayedData(kept)), Changes(ReplayMap(kept)))
  }

  // ----- redundancy ----------------------------------------------------------------------

  lemma GreatestIsMaxSeqno(s: set<Message>, m: Message)
    requires IdsIdentify(s) && m in s
    ensures m.id.seqno <= MaxSeqno(s)
  {
  }

  /** The greatest message always survives, so at least one does. */
  lemma GreatestSurvives(s: set<Message>, lag: int)
    requires Mergeable(s, lag) && s != {}
    ensures Greatest(s) in Survivors(s, lag)
    ensures Greatest(Survivors(s, lag)) == Greatest(s)
  {
    var g := Greatest(s);
    forall o | o in s ensures g.id !in o.lagged { GreatestIsMaxSeqno(s, o); }
    assert IsGreatest(g, Survivors(s, lag));
    GreatestUnique(g, Survivors(s, lag));
  }

  /** Each message of the chain is listed in the lagged diffs of the next, which has a greater seqno. */
  ghost predicate InclusionChain(chain: seq<Message>, s: set<Message>)
    decreases |chain|
  {
    && chain != [] && chain[0] in s
    && (|chain| > 1 ==>
          && chain[0].id in chain[1].lagged && chain[0].id.seqno < chain[1].id.seqno
          && InclusionChain(chain[1..], s))
  }

  /**
   A dropped message is too old, or a chain of inclusions with strictly growing seqnos
   leads from it to a survivor.
   */
  lemma {:induction false} DroppedIsCovered(s: set<Message>, lag: int, m: Message) returns (chain: seq<Message>)
    requires Mergeable(s, lag) && m in s && !TooOld(m, s, lag)
    ensures InclusionChain(chain, s) && chain[0] == m && chain[|chain| - 1] in Survivors(s, lag)
    ensures m !in Survivors(s, lag) ==> |chain| > 1
    decreases MaxSeqno(s) - m.id.seqno
  {
    GreatestIsMaxSeqno(s, m);
    if m in Survivors(s, lag) {
      chain := [m];
    } else {
      var o :| o in s && m.id in o.lagged;
      GreatestIsMaxSeqno(s, o);
      var rest := DroppedIsCovered(s, lag, o);
      chain := [m] + rest;
      assert chain[1..] == rest;
    }
  }

  // ----- when a merge breaks ---------------------------------------------------------------

  /** A known change has a stray set change at a path where its greatest carrier holds a set. */
  ghost predicate Unmergeable(s: set<Message>, i: Id, path: seq<string>)
    requires IdsIdentify(s)
  {
    i in KnownIds(s) && path != [] && BreaksAt(ChangeOf(Carrier(s, i), i), Carrier(s, i).data, path)
  }

  ghost predicate SomethingUnmergeable(s: set<Message>)
    requires IdsIdentify(s)
  {
    exists i, path :: Unmergeable(s, i, path)
  }

  /**
   A merge stops with an error exactly when it has more than one survivor, may be signed,
   and among the survivors some known change reaches, at some path, a stray set change
   where the greatest message carrying that change holds a set.
   */
  lemma MergeBreaksIff(s: set<Message>, lag: int, canMerge: bool)
    requires Mergeable(s, lag) && s != {}
    ensures MergeSet(s, lag, canMerge).Broken? <==>
            canMerge && Survivors(s, lag) != {Greatest(s)} && SomethingUnmergeable(Survivors(s, lag))
  {
    GreatestSurvives(s, lag);
    ReplayBreaksIff(Survivors(s, lag));
  }

  lemma ReplayBreaksIff(s: set<Message>)
    requires IdsIdentify(s)
    ensures ReplayBreaks(ReplayMap(s)) <==> SomethingUnmergeable(s)
  {
    var replay := ReplayMap(s);
    if i :| i in replay && Breaks(replay[i].diff, replay[i].source) {
      var path := BreakingPath(replay[i].diff, replay[i].source);
      assert Unmergeable(s, i, path);
    }
    if i, path :| Unmergeable(s, i, path) {
      PathBreaks(replay[i].diff, replay[i].source, path);
      assert i in replay && Breaks(replay[i].diff, replay[i].source);
    }
  }

  /** Messages whose changes are all clean always merge. */
  lemma CleanMerges(s: set<Message>)
    requires IdsIdentify(s) && forall m | m in s :: Clean(m.diff) && forall i | i in m.lagged :: Clean(m.lagged[i])
    ensures !ReplayBreaks(ReplayMap(s))
  {
    var replay := ReplayMap(s);
    if i :| i in replay && Breaks(replay[i].diff, replay[i].source) {
      CleanNeverBreaks(replay[i].diff, replay[i].source);
    }
  }

  // ----- the outcome, in terms of the messages --------------------------------------------------

  /** A message survives exactly when no message lists it and none is `lag` or more ahead of it. */
  lemma SurvivesIff(s: set<Message>, lag: int, m: Message)
    requires IdsIdentify(s) && s != {} && m in s
    ensures m in Survivors(s, lag) <==>
            (forall o | o in s :: m.id !in o.lagged) && (forall o | o in s :: o.id.seqno < m.id.seqno + lag)
  {
    var g := Greatest(s);
    forall o | o in s ensures o.id.seqno <= g.id.seqno { GreatestIsMaxSeqno(s, o); }
  }

  /** A change is replayed once for all messages that know of it, from the greatest of them. */
  lemma ReplayedFrom(s: set<Message>, m: Message, i: Id)
    requires IdsIdentify(s) && m in s && (i == m.id || i in m.lagged)
    requires forall o | o in s && o != m && (i == o.id || i in o.lagged) :: IdLess(o.id, m.id)
    ensures i in ReplayMap(s) && ReplayMap(s)[i] == Step(m.data, if i == m.id then m.diff else m.lagged[i])
  {
    assert i in {m.id} + m.lagged.Keys;
    assert i in KnownIds(s);
    assert IsGreatest(m, CarriersOf(s, i));
    GreatestUnique(m, CarriersOf(s, i));
  }

  lemma ReplayedIff(s: set<Message>, i: Id)
    requires IdsIdentify(s)
    ensures i in ReplayMap(s) <==> exists m :: m in s && (i == m.id || i in m.lagged)
  {
    if m :| m in s && (i == m.id || i in m.lagged) { assert i in {m.id} + m.lagged.Keys; }
  }

  /**
   When no merge may be signed, the message with the greatest (seqno, hash) is taken; the same
   holds whenever a message is taken as it is, which otherwise happens exactly when no other
   message survives.
   */
  lemma UnmergedIsGreatest(s: set<Message>, lag: int, canMerge: bool)
    requires Mergeable(s, lag) && s != {}
    ensures MergeSet(s, lag, canMerge).Unmerged? ==> IsGreatest(MergeSet(s, lag, canMerge).message, s)
    ensures MergeSet(s, lag, canMerge).Unmerged? <==>
            !canMerge || forall a, b | a in Survivors(s, lag) && b in Survivors(s, lag) :: a == b
  {
    GreatestSurvives(s, lag);
    var g, sv := Greatest(s), Survivors(s, lag);
    if forall a, b | a in sv && b in sv :: a == b {
      assert sv == {g};
    }
  }

  /** A real merge: the seqno is one above every message's, and one above some message's. */
  lemma MergedSeqno(s: set<Message>, lag: int)
    requires Mergeable(s, lag) && s != {} && MergeSet(s, lag, true).Merged?
    ensures var r := MergeSet(s, lag, true);
            (forall m | m in s :: m.id.seqno < r.seqno) && (exists m :: m in s && m.id.seqno + 1 == r.seqno)
  {
    var r, g := MergeSet(s, lag, true), Greatest(s);
    forall m | m in s ensures m.id.seqno < r.seqno { GreatestIsMaxSeqno(s, m); }
    assert g in s && g.id.seqno + 1 == r.seqno;
  }

  /** Its lagged diffs are exactly the changes the survivors know of, each as it was replayed. */
  lemma MergedLagged(s: set<Message>, lag: int, i: Id)
    requires Mergeable(s, lag) && s != {} && MergeSet(s, lag, true).Merged?
    ensures var r, sv := MergeSet(s, lag, true), Survivors(s, lag);
            && (i in r.lagged <==> exists m :: m in sv && (i == m.id || i in m.lagged))
            && (i in r.lagged ==> i in ReplayMap(sv) && r.lagged[i] == ReplayMap(sv)[i].diff)
  {
    ReplayedIff(Survivors(s, lag), i);
  }
}
