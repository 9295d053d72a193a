/**
 Replaying old diffs in hindsight: every diff takes its values from the newest data,
 although it was made against older data.  This is the argument behind erasing on a
 kind mismatch (src/config.cpp:368-377) and behind the replay loop
 (src/config.cpp:677-683).
 */
module ConfigReplay {
  import opened Options
  import opened ConfigData
  import opened ConfigDiff
  import opened ConfigApply

  /**
   `data` is right about `goal` wherever `state` is: per key, per set member, and
   recursively inside dicts.  Elsewhere `data` is free, because a later diff will
   bring `state` there to `goal` and `data` with it.
   */
  ghost predicate Faithful(state: Dict, goal: Dict, data: Dict)
    decreases DictV(goal), 0
  {
    forall k :: FaithfulKey(state, goal, data, k)
  }

  ghost predicate FaithfulKey(state: Dict, goal: Dict, data: Dict, k: string)
    decreases DictV(goal), 0, 0
  {
    if k in goal then FaithfulSlot(Get(state, k), goal[k], Get(data, k))
    else k !in state ==> k !in data
  }

  ghost predicate FaithfulSlot(v: Option<Value>, goal: Value, x: Option<Value>)
    decreases goal, 1
  {
    match goal
    case ScalarV(_) => v == Some(goal) ==> x == Some(goal)
    case SetV(s) => forall e :: (e in AsSet(v) <==> e in s) ==> (e in AsSet(x) <==> e in s)
    case DictV(d) => Faithful(AsDict(v), d, AsDict(x))
  }

  /** Both starting points of a replay are faithful. */
  lemma {:induction false} FaithfulStart(state: Dict, goal: Dict)
    ensures Faithful(state, goal, state) && Faithful(state, goal, goal)
    decreases DictV(goal)
  {
    forall k ensures FaithfulKey(state, goal, state, k) && FaithfulKey(state, goal, goal, k) {
      if k in goal && goal[k].DictV? { FaithfulStart(AsDict(Get(state, k)), goal[k].dict); }
    }
  }

  lemma {:induction false} FaithfulNothing(goal: Dict)
    ensures Faithful(map[], goal, map[])
  {
    FaithfulStart(map[], goal);
  }

  /** Where the state has reached the goal, so has the data. */
  lemma {:induction false} FaithfulAgrees(state: Dict, goal: Dict, data: Dict, k: string)
    requires Faithful(state, goal, data) && Pruned(goal) && Get(state, k) == Get(goal, k)
    ensures Get(data, k) == Get(goal, k)
    decreases DictV(goal)
  {
    assert FaithfulKey(state, goal, data, k);
    if k in goal {
      var v, x := Get(state, k), Get(data, k);
      assert PrunedValue(goal[k]) && FaithfulSlot(v, goal[k], x);
      if goal[k].SetV? {
        assert AsSet(v) == goal[k].elems;
        assert AsSet(x) == goal[k].elems;
      } else if goal[k].DictV? {
        var d := goal[k].dict;
        assert Faithful(d, d, AsDict(x));
        forall l ensures Get(AsDict(x), l) == Get(d, l) { FaithfulAgrees(d, d, AsDict(x), l); }
        SameLookups(AsDict(x), d);
      }
    }
  }

  lemma FaithfulEnd(goal: Dict, data: Dict)
    requires Faithful(goal, goal, data) && Pruned(goal)
    ensures data == goal
  {
    forall k ensures Get(data, k) == Get(goal, k) { FaithfulAgrees(goal, goal, data, k); }
    SameLookups(data, goal);
  }

  /**
   One step: whatever changed from `state` to `next`, applying that diff with values
   from `goal` keeps the data faithful.  Kind changes, deletions and re-creations are
   all covered; `state` and `next` need not be pruned.
   */
  lemma {:induction false} FaithfulStep(state: Dict, next: Dict, goal: Dict, data: Dict)
    requires Faithful(state, goal, data)
    ensures Faithful(next, goal, Apply(data, DiffDicts(state, next), goal))
    decreases DictV(goal), 0
  {
    var df := DiffDicts(state, next);
    forall k ensures FaithfulKey(next, goal, Apply(data, df, goal), k) {
      assert FaithfulKey(state, goal, data, k);
      ApplyLookup(data, df, goal, k);
      DiffLookup(state, next, k);
      if Get(state, k) != Get(next, k) && k in goal {
        FaithfulSlotStep(Get(state, k), Get(next, k), goal[k], Get(data, k));
      }
    }
  }

  lemma {:induction false} FaithfulSlotStep(v: Option<Value>, w: Option<Value>, goal: Value, x: Option<Value>)
    requires v != w && FaithfulSlot(v, goal, x)
    ensures FaithfulSlot(w, goal, ApplySlot(x, DiffSlot(v, w), Some(goal)))
    decreases goal, 1
  {
    if goal.DictV? {
      if DiffSlot(v, w).DictDiff? {
        FaithfulStep(AsDict(v), AsDict(w), goal.dict, AsDict(x));
      } else {
        FaithfulNothing(goal.dict);
      }
    }
  }

  // ----- whole histories --------------------------------------------------------------

  /** The diffs between neighbours of a history. */
  function StepDiffs(hist: seq<Dict>): (r: seq<Diffs>)
    ensures |r| == if |hist| <= 1 then 0 else |hist| - 1
  {
    if |hist| <= 1 then [] else [DiffDicts(hist[0], hist[1])] + StepDiffs(hist[1..])
  }

  lemma {:induction false} StepDiffsAt(hist: seq<Dict>, i: nat)
    requires i + 1 < |hist|
    ensures StepDiffs(hist)[i] == DiffDicts(hist[i], hist[i + 1])
  {
    if i > 0 { StepDiffsAt(hist[1..], i - 1); }
  }

  lemma {:induction false} StepDiffsOfSuffix(hist: seq<Dict>, from: nat)
    requires from < |hist|
    ensures StepDiffs(hist)[from..] == StepDiffs(hist[from..])
  {
    if from == 0 {
      assert hist[0..] == hist;
    } else {
      assert StepDiffs(hist)[from..] == StepDiffs(hist[1..])[from - 1..];
      StepDiffsOfSuffix(hist[1..], from - 1);
      assert hist[1..][from - 1..] == hist[from..];
    }
  }

  /** Apply the diffs in order, always with values from `src`. */
  function Replay(data: Dict, diffs: seq<Diffs>, src: Dict): Dict
    decreases |diffs|
  {
    if diffs == [] then data else Replay(Apply(data, diffs[0], src), diffs[1..], src)
  }

  lemma {:induction false} ReplayFaithful(hist: seq<Dict>, goal: Dict, data: Dict)
    requires hist != [] && Faithful(hist[0], goal, data)
    ensures Faithful(hist[|hist| - 1], goal, Replay(data, StepDiffs(hist), goal))
    decreases |hist|
  {
    if |hist| > 1 {
      var df := DiffDicts(hist[0], hist[1]);
      FaithfulStep(hist[0], hist[1], goal, data);
      ReplayFaithful(hist[1..], goal, Apply(data, df, goal));
    }
  }

  /**
   Hindsight replay: replaying the diffs of any suffix of a linear history with the
   last state as the only source ends exactly in the last state, both from the
   suffix's first state and from the last state itself.
   */
  lemma {:induction false} HindsightReplay(hist: seq<Dict>, from: nat)
    requires from < |hist| && Pruned(hist[|hist| - 1])
    ensures Replay(hist[from], StepDiffs(hist)[from..], hist[|hist| - 1]) == hist[|hist| - 1]
    ensures Replay(hist[|hist| - 1], StepDiffs(hist)[from..], hist[|hist| - 1]) == hist[|hist| - 1]
  {
    var goal, tail := hist[|hist| - 1], hist[from..];
    StepDiffsOfSuffix(hist, from);
    FaithfulStart(hist[from], goal);
    ReplayFaithful(tail, goal, hist[from]);
    ReplayFaithful(tail, goal, goal);
    FaithfulEnd(goal, Replay(hist[from], StepDiffs(tail), goal));
    FaithfulEnd(goal, Replay(goal, StepDiffs(tail), goal));
  }
}
