/**
 Loading serialised messages and merging the valid ones (src/config.cpp:563-585,
 616-644, include/session/config.hpp:217-226).
 */
module ConfigLoad {
  import opened Options
  import opened Ordering
  import opened ConfigData
  import opened ConfigMerge
  import opened ConfigMergeLoops
  import opened WireMessage

  /** How an input parses; its hash is taken over its serialised form. */
  ghost function ReadInput(w: WireMsg, hashOf: WireMsg -> string, lag: int): Load<Message> {
    ReadMessage(w, hashOf(w), lag)
  }

  /** The messages of the inputs that parse, in order. */
  ghost function ValidMessages(inputs: seq<WireMsg>, hashOf: WireMsg -> string, lag: int): seq<Message>
    decreases |inputs|
  {
    if inputs == [] then [] else
      var before := ValidMessages(inputs[..|inputs| - 1], hashOf, lag);
      var r := ReadInput(inputs[|inputs| - 1], hashOf, lag);
      if r.Loaded? then before + [r.value] else before
  }

  /** The positions of the inputs that parse. */
  ghost function ValidPositions(inputs: seq<WireMsg>, hashOf: WireMsg -> string, lag: int): seq<nat>
    decreases |inputs|
  {
    if inputs == [] then [] else
      var before := ValidPositions(inputs[..|inputs| - 1], hashOf, lag);
      if ReadInput(inputs[|inputs| - 1], hashOf, lag).Loaded? then before + [|inputs| - 1] else before
  }

  /** Hashes are 32 bytes. */
  ghost predicate IsHash(hashOf: WireMsg -> string) {
    forall w :: |hashOf(w)| == HASH_SIZE
  }

  /** The hash tells different inputs apart. */
  ghost predicate NoCollision(inputs: seq<WireMsg>, hashOf: WireMsg -> string) {
    forall i, j | 0 <= i < |inputs| && 0 <= j < |inputs| && hashOf(inputs[i]) == hashOf(inputs[j]) :: inputs[i] == inputs[j]
  }

  lemma {:induction false} ValidAre(inputs: seq<WireMsg>, hashOf: WireMsg -> string, lag: int)
    ensures var ms, ps := ValidMessages(inputs, hashOf, lag), ValidPositions(inputs, hashOf, lag);
            && |ms| == |ps|
            && forall i | 0 <= i < |ps| :: ps[i] < |inputs| && ReadInput(inputs[ps[i]], hashOf, lag) == Loaded(ms[i])
    decreases |inputs|
  {
    if inputs != [] {
      var n := |inputs| - 1;
      ValidAre(inputs[..n], hashOf, lag);
      var ps := ValidPositions(inputs[..n], hashOf, lag);
      assert forall i | 0 <= i < |ps| :: inputs[..n][ps[i]] == inputs[ps[i]];
    }
  }

  lemma ReadId(w: WireMsg, hashOf: WireMsg -> string, lag: int, m: Message)
    requires ReadInput(w, hashOf, lag) == Loaded(m)
    ensures m.id.hash == hashOf(w)
  {
  }

  lemma ReadParsed(w: WireMsg, hashOf: WireMsg -> string, lag: int, m: Message)
    requires IsHash(hashOf) && ReadInput(w, hashOf, lag) == Loaded(m)
    ensures Parsed(m, lag)
  {
    ParseGuarantees(w, hashOf(w), lag);
  }

  /** Every valid message has an input it was read from. */
  lemma ReadFrom(inputs: seq<WireMsg>, hashOf: WireMsg -> string, lag: int, m: Message) returns (i: nat)
    requires m in ValidMessages(inputs, hashOf, lag)
    ensures i < |inputs| && ReadInput(inputs[i], hashOf, lag) == Loaded(m)
  {
    var ms, ps := ValidMessages(inputs, hashOf, lag), ValidPositions(inputs, hashOf, lag);
    ValidAre(inputs, hashOf, lag);
    var p :| 0 <= p < |ms| && ms[p] == m;
    i := ps[p];
  }

  /** The messages that parse meet the demands of merging. */
  lemma ValidMergeable(inputs: seq<WireMsg>, hashOf: WireMsg -> string, lag: int)
    requires lag >= 1 && IsHash(hashOf) && NoCollision(inputs, hashOf)
    ensures Mergeable(MessageSet(ValidMessages(inputs, hashOf, lag)), lag)
  {
    var ms := ValidMessages(inputs, hashOf, lag);
    forall m | m in ms ensures Parsed(m, lag) {
      var i := ReadFrom(inputs, hashOf, lag, m);
      ReadParsed(inputs[i], hashOf, lag, m);
    }
    forall a, b | a in ms && b in ms && a.id == b.id ensures a == b {
      var i := ReadFrom(inputs, hashOf, lag, a);
      var j := ReadFrom(inputs, hashOf, lag, b);
      ReadId(inputs[i], hashOf, lag, a);
      ReadId(inputs[j], hashOf, lag, b);
    }
  }

  // ----- where the used message came from --------------------------------------------------------

  ghost predicate AllValid(inputs: seq<WireMsg>, hashOf: WireMsg -> string, lag: int) {
    forall i | 0 <= i < |inputs| :: ReadInput(inputs[i], hashOf, lag).Loaded?
  }

  lemma {:induction false} PositionsOfPrefix(inputs: seq<WireMsg>, n: nat, hashOf: WireMsg -> string, lag: int)
    requires n <= |inputs|
    ensures ValidPositions(inputs[..n], hashOf, lag) <= ValidPositions(inputs, hashOf, lag)
    ensures |ValidPositions(inputs[..n], hashOf, lag)| <= n
    decreases |inputs|
  {
    if n < |inputs| {
      PositionsOfPrefix(inputs[..|inputs| - 1], n, hashOf, lag);
      assert inputs[..|inputs| - 1][..n] == inputs[..n];
    } else if n > 0 {
      PositionsOfPrefix(inputs[..n - 1], n - 1, hashOf, lag);
      assert inputs[..n] == inputs && inputs[..n - 1][..n - 1] == inputs[..n - 1];
    }
  }

  lemma AllValidStep(inputs: seq<WireMsg>, n: nat, hashOf: WireMsg -> string, lag: int)
    requires |inputs| == n + 1
    ensures AllValid(inputs, hashOf, lag) <==> AllValid(inputs[..n], hashOf, lag) && ReadInput(inputs[n], hashOf, lag).Loaded?
  {
    var short := inputs[..n];
    assert forall i | 0 <= i < n :: short[i] == inputs[i];
  }

  lemma {:induction false} PositionsCount(inputs: seq<WireMsg>, hashOf: WireMsg -> string, lag: int)
    ensures |ValidPositions(inputs, hashOf, lag)| == |inputs| <==> AllValid(inputs, hashOf, lag)
    decreases |inputs|
  {
    if inputs != [] {
      var n := |inputs| - 1;
      PositionsCount(inputs[..n], hashOf, lag);
      PositionsOfPrefix(inputs[..n], n, hashOf, lag);
      assert inputs[..n][..n] == inputs[..n];
      AllValidStep(inputs, n, hashOf, lag);
    }
  }

  /**
   The i-th valid message comes from input i exactly when none of the inputs up to i
   fails to parse; otherwise it comes from a later one.
   */
  lemma {:induction false} IndexNamesInput(inputs: seq<WireMsg>, hashOf: WireMsg -> string, lag: int, i: nat)
    requires i < |ValidPositions(inputs, hashOf, lag)|
    ensures i < |inputs|
    ensures ValidPositions(inputs, hashOf, lag)[i] == i <==> AllValid(inputs[..i + 1], hashOf, lag)
    ensures ValidPositions(inputs, hashOf, lag)[i] >= i
    decreases |inputs|
  {
    var n := |inputs| - 1;
    var before := ValidPositions(inputs[..n], hashOf, lag);
    LastPosition(inputs, hashOf, lag);
    if i < |before| {
      IndexNamesInput(inputs[..n], hashOf, lag, i);
      assert inputs[..n][..i + 1] == inputs[..i + 1];
    } else {
      LastIndexNamesInput(inputs, hashOf, lag);
    }
  }

  lemma LastPosition(inputs: seq<WireMsg>, hashOf: WireMsg -> string, lag: int)
    requires inputs != []
    ensures var n := |inputs| - 1;
      var before, ps := ValidPositions(inputs[..n], hashOf, lag), ValidPositions(inputs, hashOf, lag);
      if ReadInput(inputs[n], hashOf, lag).Loaded? then ps == before + [n] else ps == before
  {
  }

  /** The last input, when it is valid. */
  lemma LastIndexNamesInput(inputs: seq<WireMsg>, hashOf: WireMsg -> string, lag: int)
    requires inputs != [] && ReadInput(inputs[|inputs| - 1], hashOf, lag).Loaded?
    ensures var ps, n := ValidPositions(inputs, hashOf, lag), |inputs| - 1;
      0 < |ps| <= |inputs| && ps[|ps| - 1] == n && (|ps| == |inputs| <==> AllValid(inputs[..|ps|], hashOf, lag))
  {
    var ps := ValidPositions(inputs, hashOf, lag);
    PositionsOfPrefix(inputs, |inputs|, hashOf, lag);
    assert inputs[..|inputs|] == inputs;
    PositionsCount(inputs, hashOf, lag);
    if |ps| < |inputs| {
      NotAllValid(inputs, hashOf, lag, |ps|);
    }
  }

  lemma NotAllValid(inputs: seq<WireMsg>, hashOf: WireMsg -> string, lag: int, k: nat)
    requires 0 < k < |inputs| && |ValidPositions(inputs, hashOf, lag)| == k && ReadInput(inputs[|inputs| - 1], hashOf, lag).Loaded?
    ensures !AllValid(inputs[..k], hashOf, lag)
  {
    var front := inputs[..|inputs| - 1];
    PositionsOfPrefix(front, k, hashOf, lag);
    assert front[..k] == inputs[..k];
    PositionsCount(inputs[..k], hashOf, lag);
  }

  /** With an unparseable first input, index 0 does not name the input the message came from. */
  lemma IndexCanBeOff(bad: WireMsg, good: WireMsg, hashOf: WireMsg -> string, lag: int)
    requires !ReadInput(bad, hashOf, lag).Loaded? && ReadInput(good, hashOf, lag).Loaded?
    ensures ValidMessages([bad, good], hashOf, lag) == [ReadInput(good, hashOf, lag).value]
    ensures ValidPositions([bad, good], hashOf, lag) == [1]
  {
    var none: seq<WireMsg>, one, two := [], [bad], [bad, good];
    assert one[..|one| - 1] == none && two[..|two| - 1] == one;
    assert ValidMessages(none, hashOf, lag) == [] && ValidPositions(none, hashOf, lag) == [];
    assert ValidMessages(one, hashOf, lag) == [] && ValidPositions(one, hashOf, lag) == [];
    assert ReadInput(two[|two| - 1], hashOf, lag).Loaded?;
  }

  // ----- the whole construction ---------------------------------------------------------------------

  /** How constructing a message from serialised ones ends, if it does. */
  datatype Construction = Hangs | Fails | Built(outcome: Outcome)

  ghost predicate SomeStuck(inputs: seq<WireMsg>, hashOf: WireMsg -> string, lag: int) {
    exists i :: 0 <= i < |inputs| && ReadInput(inputs[i], hashOf, lag).Stuck?
  }

  /**
   The construction hangs on an input that stops the parser, fails without a valid message or
   on a merge that breaks, and otherwise gives the merge of the set of valid messages.
   */
  ghost function BuildOf(inputs: seq<WireMsg>, hashOf: WireMsg -> string, lag: int, canMerge: bool): Construction
    requires Mergeable(MessageSet(ValidMessages(inputs, hashOf, lag)), lag)
  {
    var ms := ValidMessages(inputs, hashOf, lag);
    if SomeStuck(inputs, hashOf, lag) then Hangs
    else if ms == [] || MergeSet(MessageSet(ms), lag, canMerge).Broken? then Fails
    else Built(MergeSet(MessageSet(ms), lag, canMerge))
  }

  /** The valid messages cannot be merged: more than one survives and a stray set change is reached. */
  ghost predicate Jammed(s: set<Message>, lag: int, canMerge: bool)
    requires Mergeable(s, lag) && s != {}
  {
    canMerge && Survivors(s, lag) != {Greatest(s)} && SomethingUnmergeable(Survivors(s, lag))
  }

  ghost predicate NothingToBuild(ms: seq<Message>, lag: int, canMerge: bool)
    requires Mergeable(MessageSet(ms), lag)
  {
    ms == [] || Jammed(MessageSet(ms), lag, canMerge)
  }

  /**
   Parse every input, skip the ones that fail, merge the rest.  The result depends on
   the set of valid messages alone, and on whether some input never parses.  `unmerged`
   counts valid messages only: it is the index of the used input exactly when no input up to
   that index failed to parse.
   */
  method MergeInputs(inputs: seq<WireMsg>, hashOf: WireMsg -> string, lag: int, canMerge: bool)
    returns (r: Construction, unmerged: Option<nat>)
    requires lag >= 1 && IsHash(hashOf) && NoCollision(inputs, hashOf)
    ensures Mergeable(MessageSet(ValidMessages(inputs, hashOf, lag)), lag)
    ensures r == BuildOf(inputs, hashOf, lag, canMerge)
    ensures r.Hangs? <==> SomeStuck(inputs, hashOf, lag)
    ensures r.Fails? <==>
            !SomeStuck(inputs, hashOf, lag) && NothingToBuild(ValidMessages(inputs, hashOf, lag), lag, canMerge)
    ensures unmerged.Some? <==> r.Built? && r.outcome.Unmerged?
    ensures unmerged.Some? ==> NamesUsed(inputs, hashOf, lag, unmerged.value, r.outcome.message)
    ensures unmerged.Some? ==> Exceeds(r.outcome.message, ValidMessages(inputs, hashOf, lag))
    ensures !canMerge && !SomeStuck(inputs, hashOf, lag) && ValidMessages(inputs, hashOf, lag) != [] ==> unmerged.Some?
  {
    ValidMergeable(inputs, hashOf, lag);
    BuildsWhen(inputs, hashOf, lag, canMerge);
    var configs := ParseAll(inputs, hashOf, lag);
    if configs.None? { return Hangs, None; }
    r, unmerged := MergeConfigs(configs.value, lag, canMerge);
    if unmerged.Some? {
      UsedIsNamed(inputs, hashOf, lag, unmerged.value);
    }
  }

  /** Nothing is returned when the parser hangs. */
  method ParseAll(inputs: seq<WireMsg>, hashOf: WireMsg -> string, lag: int) returns (configs: Option<seq<Message>>)
    ensures configs == if SomeStuck(inputs, hashOf, lag) then None else Some(ValidMessages(inputs, hashOf, lag))
  {
    var ms: seq<Message> := [];
    for i := 0 to |inputs|
      invariant ms == ValidMessages(inputs[..i], hashOf, lag)
      invariant forall p | 0 <= p < i :: !ReadInput(inputs[p], hashOf, lag).Stuck?
    {
      assert inputs[..i + 1][..i] == inputs[..i];
      var m := ParseMessage(inputs[i], hashOf(inputs[i]), lag);
      if m.Stuck? { return None; }
      if m.Loaded? { ms := ms + [m.value]; }
    }
    assert inputs[..|inputs|] == inputs;
    configs := Some(ms);
  }

  method MergeConfigs(configs: seq<Message>, lag: int, canMerge: bool) returns (r: Construction, unmerged: Option<nat>)
    requires Mergeable(MessageSet(configs), lag)
    ensures r == if configs == [] || MergeSet(MessageSet(configs), lag, canMerge).Broken? then Fails
                 else Built(MergeSet(MessageSet(configs), lag, canMerge))
    ensures unmerged.Some? <==> r.Built? && r.outcome.Unmerged?
    ensures unmerged.Some? ==> unmerged.value < |configs| && configs[unmerged.value] == r.outcome.message
    ensures unmerged.Some? ==> Exceeds(r.outcome.message, configs)
    ensures !canMerge && configs != [] ==> unmerged.Some?
  {
    var merged;
    merged, unmerged := Merge(configs, lag, canMerge);
    if configs == [] { return Fails, None; }
    r := if merged.value.Broken? then Fails else Built(merged.value);
  }

  lemma BuildsWhen(inputs: seq<WireMsg>, hashOf: WireMsg -> string, lag: int, canMerge: bool)
    requires Mergeable(MessageSet(ValidMessages(inputs, hashOf, lag)), lag)
    ensures BuildOf(inputs, hashOf, lag, canMerge).Hangs? <==> SomeStuck(inputs, hashOf, lag)
    ensures BuildOf(inputs, hashOf, lag, canMerge).Fails? <==>
            !SomeStuck(inputs, hashOf, lag) && NothingToBuild(ValidMessages(inputs, hashOf, lag), lag, canMerge)
  {
    var ms := ValidMessages(inputs, hashOf, lag);
    if ms != [] { MergeBreaksIff(MessageSet(ms), lag, canMerge); }
  }

  /** Valid message `u` is `m`, and where it came from. */
  ghost predicate NamesUsed(inputs: seq<WireMsg>, hashOf: WireMsg -> string, lag: int, u: nat, m: Message) {
    var ms, ps := ValidMessages(inputs, hashOf, lag), ValidPositions(inputs, hashOf, lag);
    && u < |ms| && ms[u] == m
    && u < |ps| && u < |inputs| && ps[u] < |inputs|
    && ReadInput(inputs[ps[u]], hashOf, lag) == Loaded(m)
    && (ps[u] == u <==> AllValid(inputs[..u + 1], hashOf, lag))
  }

  lemma UsedIsNamed(inputs: seq<WireMsg>, hashOf: WireMsg -> string, lag: int, u: nat)
    requires u < |ValidMessages(inputs, hashOf, lag)|
    ensures NamesUsed(inputs, hashOf, lag, u, ValidMessages(inputs, hashOf, lag)[u])
  {
    ValidAre(inputs, hashOf, lag);
    IndexNamesInput(inputs, hashOf, lag, u);
  }
}
