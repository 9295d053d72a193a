/**
 What devices that exchange serialised messages can rely on, from one end to the other:
 serialise, parse and merge (src/config.cpp:461-690, 737-787).
 */
module ConfigExchange {
  import opened Options
  import opened Ordering
  import opened ConfigData
  import opened BtTree
  import opened ConfigDiff
  import opened ConfigApply
  import opened ConfigMerge
  import opened ConfigMergeLoops
  import opened ConfigMergeLaws
  import opened Wire
  import opened WireParse
  import opened WireMessage
  import opened ConfigMessage
  import opened ConfigRuns
  import opened ConfigLoad

  // ----- one more input ---------------------------------------------------------------------------

  lemma OneMore(inputs: seq<WireMsg>, w: WireMsg, hashOf: WireMsg -> string, lag: int, m: Message)
    requires ReadInput(w, hashOf, lag) == Loaded(m)
    ensures ValidMessages(inputs + [w], hashOf, lag) == ValidMessages(inputs, hashOf, lag) + [m]
    ensures ValidPositions(inputs + [w], hashOf, lag) == ValidPositions(inputs, hashOf, lag) + [|inputs|]
    ensures SomeStuck(inputs + [w], hashOf, lag) <==> SomeStuck(inputs, hashOf, lag)
  {
    var more := inputs + [w];
    assert more[..|inputs|] == inputs && more[|inputs|] == w;
    if i :| 0 <= i < |inputs| && ReadInput(inputs[i], hashOf, lag).Stuck? { assert more[i] == inputs[i]; }
    if i :| 0 <= i < |more| && ReadInput(more[i], hashOf, lag).Stuck? { assert i < |inputs| && more[i] == inputs[i]; }
  }

  lemma SetOfMore(ms: seq<Message>, m: Message)
    ensures MessageSet(ms + [m]) == MessageSet(ms) + {m}
  {
    assert forall x :: x in ms + [m] <==> x in ms || x == m;
  }

  // ----- absorption ---------------------------------------------------------------------------------

  /** The tree that a merge result is sent as, with whatever diff it has by then. */
  function ResultTree(r: Outcome, diff: Diffs, lag: int): WireMsg
    requires r.Merged?
  {
    Serialized(r.seqno, r.data, r.lagged, diff, lag)
  }

  /** Another device parses a sent merge result as the message meant. */
  lemma ResultIsParsed(s: set<Message>, lag: int, diff: Diffs, hash: string)
    requires Mergeable(s, lag) && s != {} && MergeSet(s, lag, true).Merged? && |hash| == HASH_SIZE
    ensures var r := MergeSet(s, lag, true);
            ReadMessage(ResultTree(r, diff, lag), hash, lag) == Loaded(Published(r, lag, hash, diff))
  {
    var r := MergeSet(s, lag, true);
    PublishedIsParsed(s, lag, hash, diff);
    MessageRoundTrip(Message(Id(r.seqno, hash), r.data, diff, r.lagged), lag);
  }

  /** The result of merging the inputs is a real merge `r`. */
  ghost predicate MergesTo(inputs: seq<WireMsg>, hashOf: WireMsg -> string, lag: int, r: Outcome) {
    var ms := ValidMessages(inputs, hashOf, lag);
    && Mergeable(MessageSet(ms), lag) && r.Merged? && BuildOf(inputs, hashOf, lag, true) == Built(r)
  }

  /**
   Absorption on the wire: when the inputs were merged and the result is serialised with any
   diff, merging all the inputs again together with that tree takes the tree as it is, and the
   index names it.
   */
  lemma WireAbsorption(inputs: seq<WireMsg>, hashOf: WireMsg -> string, lag: int, r: Outcome, diff: Diffs, canMerge: bool)
    requires MergesTo(inputs, hashOf, lag, r) && IsHash(hashOf)
    ensures var w := ResultTree(r, diff, lag);
            var m := Published(r, lag, hashOf(w), diff);
            var more := inputs + [w];
            && Mergeable(MessageSet(ValidMessages(more, hashOf, lag)), lag)
            && BuildOf(more, hashOf, lag, canMerge) == Built(Unmerged(m))
            && NamedLast(inputs, w, hashOf, lag, m)
  {
    var w := ResultTree(r, diff, lag);
    var m := Published(r, lag, hashOf(w), diff);
    var ms := ValidMessages(inputs, hashOf, lag);
    ResultIsParsed(MessageSet(ms), lag, diff, hashOf(w));
    OneMore(inputs, w, hashOf, lag, m);
    SetOfMore(ms, m);
    Absorption(MessageSet(ms), lag, hashOf(w), diff, canMerge);
    OnlyLast(inputs, w, hashOf, lag, m);
  }

  /** The only index that can stand for `m` is that of the last input. */
  ghost predicate NamedLast(inputs: seq<WireMsg>, w: WireMsg, hashOf: WireMsg -> string, lag: int, m: Message) {
    forall u: nat | NamesUsed(inputs + [w], hashOf, lag, u, m) ::
      u == |ValidMessages(inputs, hashOf, lag)| && ValidPositions(inputs + [w], hashOf, lag)[u] == |inputs|
  }

  lemma OnlyLast(inputs: seq<WireMsg>, w: WireMsg, hashOf: WireMsg -> string, lag: int, m: Message)
    requires ReadInput(w, hashOf, lag) == Loaded(m) && m !in ValidMessages(inputs, hashOf, lag)
    ensures NamedLast(inputs, w, hashOf, lag, m)
  {
    OneMore(inputs, w, hashOf, lag, m);
    var ms, ps := ValidMessages(inputs, hashOf, lag), ValidPositions(inputs, hashOf, lag);
    ValidAre(inputs, hashOf, lag);
    assert forall q | 0 <= q < |ms| :: ms[q] in ms && ms[q] != m;
    forall u: nat | NamesUsed(inputs + [w], hashOf, lag, u, m)
      ensures u == |ms| && ValidPositions(inputs + [w], hashOf, lag)[u] == |inputs|
    {
      assert (ms + [m])[u] == m;
    }
  }

  // ----- two devices -----------------------------------------------------------------------------------

  /** The state of a device that holds `base`, incremented it and set the data. */
  function EditOf(base: Message, d: Dict, lag: int): State {
    AfterIncrement(base, lag).(data := d)
  }

  lemma ChildOnWire(base: Message, d: Dict, lag: int, hashOf: WireMsg -> string)
    requires Parsed(base, lag) && IsHash(hashOf)
    ensures var w := Publish(EditOf(base, d, lag), lag);
            ReadInput(w, hashOf, lag) == Loaded(Child(base, Prune(d), hashOf(w), lag))
            && Parsed(Child(base, Prune(d), hashOf(w), lag), lag)
  {
    var st := EditOf(base, d, lag);
    var w := Publish(st, lag);
    EditSendsChild(base, d, lag, hashOf(w));
    SentIsParsed(st, lag, hashOf(w));
  }

  /**
   Two devices parse the same message of a run, edit it concurrently and send their results:
   whoever parses and merges the two trees gets the three-way merge of the two edits over the
   common base, in which the greater (seqno, hash) wins the conflicts.
   */
  lemma TwoDevices(trace: seq<State>, edits: seq<Edit>, seqno: int, lag: int, n: nat, x: Dict, y: Dict, hashOf: WireMsg -> string)
    requires IsRun(trace, edits, seqno, lag) && lag >= 1 && n < |edits| && IsHash(hashOf)
    ensures var sent := Edited(trace[n], edits[n]);
            var base := Sent(sent, lag, edits[n].hash);
            var wx, wy := Publish(EditOf(base, x, lag), lag), Publish(EditOf(base, y, lag), lag);
            && ReadMessage(Publish(sent, lag), edits[n].hash, lag) == Loaded(base)
            && (hashOf(wx) != hashOf(wy) ==> MergesThreeWay([wx, wy], hashOf, lag, base, Prune(x), Prune(y)))
  {
    var sent := Edited(trace[n], edits[n]);
    var base := Sent(sent, lag, edits[n].hash);
    var wx, wy := Publish(EditOf(base, x, lag), lag), Publish(EditOf(base, y, lag), lag);
    RunHashed(trace, edits, seqno, lag, n);
    SentIsParsed(sent, lag, edits[n].hash);
    RunSendsLine(trace, edits, seqno, lag, n);
    if hashOf(wx) != hashOf(wy) {
      ChildOnWire(base, x, lag, hashOf);
      ChildOnWire(base, y, lag, hashOf);
      PairOnWire(wx, wy, hashOf, lag, base, States(edits)[Max(0, n + 1 - lag)..n + 2], Prune(x), Prune(y));
    }
  }

  /** Merging these trees gives the three-way merge of `x` and `y` over `base`. */
  ghost predicate MergesThreeWay(inputs: seq<WireMsg>, hashOf: WireMsg -> string, lag: int, base: Message, x: Dict, y: Dict)
    requires |inputs| == 2
  {
    && Mergeable(MessageSet(ValidMessages(inputs, hashOf, lag)), lag)
    && var r := BuildOf(inputs, hashOf, lag, true);
    && r.Built? && r.outcome.Merged? && r.outcome.seqno == base.id.seqno + 2
    && r.outcome.data == Prune(if StrLess(hashOf(inputs[1]), hashOf(inputs[0])) then ThreeWay(base.data, x, y)
                               else ThreeWay(base.data, y, x))
  }

  lemma PairOnWire(wx: WireMsg, wy: WireMsg, hashOf: WireMsg -> string, lag: int, base: Message, hist: seq<Dict>, x: Dict, y: Dict)
    requires lag >= 1 && Linear(base, hist) && Parsed(base, lag) && hashOf(wx) != hashOf(wy)
    requires var a := Child(base, x, hashOf(wx), lag); ReadInput(wx, hashOf, lag) == Loaded(a) && Parsed(a, lag)
    requires var b := Child(base, y, hashOf(wy), lag); ReadInput(wy, hashOf, lag) == Loaded(b) && Parsed(b, lag)
    ensures MergesThreeWay([wx, wy], hashOf, lag, base, x, y)
  {
    var a, b := Child(base, x, hashOf(wx), lag), Child(base, y, hashOf(wy), lag);
    ChildrenMerge(base, hist, a, b, lag);
    PairBuilds(wx, wy, hashOf, lag, a, b);
    assert IdLess(b.id, a.id) <==> StrLess(hashOf(wy), hashOf(wx));
  }

  lemma PairBuilds(wx: WireMsg, wy: WireMsg, hashOf: WireMsg -> string, lag: int, a: Message, b: Message)
    requires ReadInput(wx, hashOf, lag) == Loaded(a) && ReadInput(wy, hashOf, lag) == Loaded(b)
    requires Mergeable({a, b}, lag)
    ensures Mergeable(MessageSet(ValidMessages([wx, wy], hashOf, lag)), lag)
    ensures var r := MergeSet({a, b}, lag, true);
            BuildOf([wx, wy], hashOf, lag, true) == if r.Broken? then Fails else Built(r)
  {
    PairIsRead(wx, wy, hashOf, lag, a, b);
  }

  lemma PairIsRead(wx: WireMsg, wy: WireMsg, hashOf: WireMsg -> string, lag: int, a: Message, b: Message)
    requires ReadInput(wx, hashOf, lag) == Loaded(a) && ReadInput(wy, hashOf, lag) == Loaded(b)
    ensures ValidMessages([wx, wy], hashOf, lag) == [a, b] && !SomeStuck([wx, wy], hashOf, lag)
    ensures MessageSet([a, b]) == {a, b}
  {
    var none: seq<WireMsg> := [];
    OneMore(none, wx, hashOf, lag, a);
    OneMore(none + [wx], wy, hashOf, lag, b);
    assert none + [wx] + [wy] == [wx, wy];
    assert ValidMessages(none, hashOf, lag) == [];
    assert forall m :: m in [a, b] <==> m == a || m == b;
  }

  // ----- a merge that breaks -----------------------------------------------------------------------------

  /** A message with one set, whose diff lists a list among the members added to it. */
  function StrayTree(x: int): WireMsg {
    WireMsg(1, WriteDict(map["k" := SetV({Int(x)})]), [], STRAY_TREE)
  }

  function StrayMessage(x: int, hash: string): Message {
    Message(Id(1, hash), map["k" := SetV({Int(x)})], map["k" := Stray(StrayExample())], map[])
  }

  lemma StrayIsRead(x: int, hashOf: WireMsg -> string, lag: int)
    requires IsHash(hashOf)
    ensures var m := StrayMessage(x, hashOf(StrayTree(x)));
            ReadInput(StrayTree(x), hashOf, lag) == Loaded(m) && Parsed(m, lag)
  {
    var d: Dict := map["k" := SetV({Int(x)})];
    assert Int(x) in {Int(x)};
    assert PrunedValue(d["k"]) && Pruned(d);
    WriteShaped(d);
    ReadWrite(d);
    LoadedButStray();
    assert RowMap([]) == map[];
    assert ReadRows(StrayTree(x).lagged, 1, lag) == Loaded([]);
  }

  /**
   Two such messages both parse, yet constructing a message from them fails, although either
   alone is fine: the diff that was accepted cannot be applied.
   */
  lemma AcceptedButUnmergeable(x: int, y: int, hashOf: WireMsg -> string, lag: int)
    requires IsHash(hashOf) && lag >= 1 && hashOf(StrayTree(x)) != hashOf(StrayTree(y))
    ensures var inputs := [StrayTree(x), StrayTree(y)];
            && |ValidMessages(inputs, hashOf, lag)| == 2
            && Mergeable(MessageSet(ValidMessages(inputs, hashOf, lag)), lag)
            && BuildOf(inputs, hashOf, lag, true) == Fails
  {
    var a, b := StrayMessage(x, hashOf(StrayTree(x))), StrayMessage(y, hashOf(StrayTree(y)));
    StrayIsRead(x, hashOf, lag);
    StrayIsRead(y, hashOf, lag);
    StrayPairBreaks(a, b, lag);
    PairIsRead(StrayTree(x), StrayTree(y), hashOf, lag, a, b);
  }

  lemma StrayPairBreaks(a: Message, b: Message, lag: int)
    requires lag >= 1 && Parsed(a, lag) && Parsed(b, lag) && a.id != b.id && a.id.seqno == b.id.seqno
    requires a.lagged == map[] && b.lagged == map[]
    requires "k" in a.diff && a.diff["k"].Stray? && "k" in a.data && a.data["k"].SetV?
    ensures Mergeable({a, b}, lag) && MergeSet({a, b}, lag, true).Broken?
  {
    var s := {a, b};
    PairSurvives(s, a, b, lag);
    assert a in s && b in s && a.id in {a.id} + a.lagged.Keys;
    var g := Greatest(s);
    assert a in {g} && b in {g} ==> a == b;
    assert CarriersOf(s, a.id) == {a};
    assert Carrier(s, a.id) == a;
    assert BreaksEntry(a.diff["k"], Get(a.data, "k"));
    assert Breaks(a.diff, a.data);
    assert ReplayMap(s)[a.id] == Step(a.data, a.diff);
  }
}
