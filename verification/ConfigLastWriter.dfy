/**
 Last writer wins, at every path (src/config.cpp:356-391, 654-686).
 */
module ConfigLastWriter {
  import opened Options
  import opened Ordering
  import opened ConfigData
  import opened ConfigDiff
  import opened ConfigApply
  import opened ConfigMerge
  import opened ConfigMergeLaws

  // ----- pruning at a path -----------------------------------------------------------------

  function PrunedSlotOf(x: Option<Value>): Option<Value> {
    if x.None? || Vacant(PruneValue(x.value)) then None else Some(PruneValue(x.value))
  }

  /** What pruning makes of the value at a path depends on that value alone. */
  lemma {:induction false} PruneAtPath(d: Dict, path: seq<string>)
    requires path != []
    ensures At(Prune(d), path) == PrunedSlotOf(At(d, path))
    decreases |path|
  {
    var k := path[0];
    if |path| > 1 {
      AtEmpty(path[1..]);
      if k in d && d[k].DictV? { PruneAtPath(d[k].dict, path[1..]); }
    }
  }

  /** Scalars and sets with members stay as they are; a dict stays a dict or goes. */
  lemma PruneKeepsLeaves(d: Dict, path: seq<string>)
    requires path != []
    ensures var x, y := At(d, path), At(Prune(d), path);
            match x
            case None => y == None
            case Some(ScalarV(_)) => y == x
            case Some(SetV(s)) => y == if s == {} then None else x
            case Some(DictV(_)) => y.Some? ==> y.value.DictV? && y.value.dict != map[]
  {
    PruneAtPath(d, path);
  }

  lemma {:induction false} PrunedAtPath(d: Dict, path: seq<string>)
    requires path != [] && Pruned(d)
    ensures At(d, path) == PrunedSlotOf(At(d, path))
    decreases |path|
  {
    PruneFixesPruned(d);
    PruneAtPath(d, path);
  }

  // ----- which steps change a path ------------------------------------------------------------

  /** The change has an entry for the path, or replaces or erases a container above it. */
  predicate Touches(df: Diffs, src: Dict, path: seq<string>)
    requires path != []
  {
    !Reached(df, src, path) || EntryAt(df, path).Some?
  }

  predicate Mentions(replay: map<Id, Step>, i: Id, path: seq<string>)
    requires path != []
  {
    i in replay && Touches(replay[i].diff, replay[i].source, path)
  }

  /** What a change that touches the path makes of the value `x` there. */
  function Effect(x: Option<Value>, df: Diffs, src: Dict, path: seq<string>): Option<Value>
    requires path != [] && Touches(df, src, path)
  {
    if Reached(df, src, path) then ApplySlot(x, EntryAt(df, path).value, At(src, path)) else None
  }

  /** Steps that do not mention a path leave it alone. */
  lemma {:induction false} Unmentioned(data: Dict, ids: seq<Id>, replay: map<Id, Step>, path: seq<string>)
    requires path != [] && forall i | i in ids :: !Mentions(replay, i, path)
    ensures At(RunSteps(data, ids, replay), path) == At(data, path)
    decreases |ids|
  {
    if ids != [] {
      assert ids[0] in ids && !Mentions(replay, ids[0], path);
      if ids[0] in replay { ApplyAtPath(data, replay[ids[0]].diff, replay[ids[0]].source, path); }
      Unmentioned(RunStep(data, ids[0], replay), ids[1..], replay, path);
    }
  }

  /** After the last step that mentions a path, the path holds what that step made of it. */
  lemma LastMention(data: Dict, ids: seq<Id>, replay: map<Id, Step>, path: seq<string>, p: nat) returns (x: Option<Value>)
    requires path != [] && p < |ids| && Mentions(replay, ids[p], path)
    requires forall q | p < q < |ids| :: !Mentions(replay, ids[q], path)
    ensures At(RunSteps(data, ids, replay), path) == Effect(x, replay[ids[p]].diff, replay[ids[p]].source, path)
  {
    var before := RunSteps(data, ids[..p], replay);
    var here := RunStep(before, ids[p], replay);
    x := At(before, path);
    RunStepsAppend(data, ids[..p], ids[p..], replay);
    assert ids[..p] + ids[p..] == ids && ids[p..][0] == ids[p] && ids[p..][1..] == ids[p + 1..];
    Unmentioned(here, ids[p + 1..], replay, path);
    ApplyAtPath(before, replay[ids[p]].diff, replay[ids[p]].source, path);
  }

  /** `w` is the greatest known change that mentions the path. */
  ghost predicate IsLastWriter(s: set<Message>, path: seq<string>, w: Id)
    requires IdsIdentify(s) && path != []
  {
    && Mentions(ReplayMap(s), w, path)
    && forall i | Mentions(ReplayMap(s), i, path) :: i == w || IdLess(i, w)
  }

  lemma WriterDecides(s: set<Message>, path: seq<string>, w: Id) returns (x: Option<Value>)
    requires IdsIdentify(s) && s != {} && path != [] && IsLastWriter(s, path, w)
    ensures At(ReplayedData(s), path) == Effect(x, ChangeOf(Carrier(s, w), w), Carrier(s, w).data, path)
  {
    var replay, ids := ReplayMap(s), Ids(ReplayMap(s).Keys);
    assert w in ids;
    var p :| 0 <= p < |ids| && ids[p] == w;
    forall q | p < q < |ids| ensures !Mentions(replay, ids[q], path) {
      assert IdLess(ids[p], ids[q]);
      IdTotal(ids[p], ids[q]);
    }
    x := LastMention(Greatest(s).data, ids, replay, path, p);
  }

  // ----- last writer wins -----------------------------------------------------------------------

  /**
   What the deciding change, with the data of the message it is taken from, says about the
   merged value: nothing is left where a container above was replaced, where the entry
   deletes, and where the message holds another kind of value than the entry speaks of; an
   assignment gives the message's scalar; a set has what was added and not what was removed;
   and an entry for a sub-dict leaves a dict there, if anything, to whose paths this applies
   in turn.
   */
  ghost predicate Decides(df: Diffs, src: Dict, path: seq<string>, merged: Option<Value>)
    requires path != []
  {
    if !Reached(df, src, path) then merged.None?
    else EntryAt(df, path).Some? && DecidedBy(EntryAt(df, path).value, At(src, path), merged)
  }

  ghost predicate DecidedBy(e: Diff, src: Option<Value>, merged: Option<Value>) {
    match e
    case Delete => merged == None
    case Assign => merged == if src.Some? && src.value.ScalarV? then src else None
    case SetDiff(a, r) =>
      if src.Some? && src.value.SetV? then
        a - r <= AsSet(merged) && r !! AsSet(merged) && (merged.Some? ==> merged.value.SetV?)
      else merged == None
    case DictDiff(_) => if src.Some? && src.value.DictV? then merged.Some? ==> merged.value.DictV? else merged == None
    case Stray(_) => (src.Some? && src.value.SetV?) || merged == None
  }

  /**
   Last writer wins, for every path of a merge result.  A path that no known change
   mentions keeps the greatest message's value.  Otherwise the greatest change that
   mentions it decides, with the data of the greatest survivor that carries it.
   */
  lemma LastWriterWins(s: set<Message>, lag: int, path: seq<string>)
    requires Mergeable(s, lag) && s != {} && path != [] && MergeSet(s, lag, true).Merged?
    ensures var sv, data := Survivors(s, lag), MergeSet(s, lag, true).data;
            && sv != {}
            && ((forall i :: !Mentions(ReplayMap(sv), i, path)) ==> At(data, path) == At(Greatest(s).data, path))
            && forall w | IsLastWriter(sv, path, w) ::
                 Decides(ChangeOf(Carrier(sv, w), w), Carrier(sv, w).data, path, At(data, path))
  {
    var sv := Survivors(s, lag);
    GreatestSurvives(s, lag);
    UnmentionedKeeps(s, lag, path);
    forall w | IsLastWriter(sv, path, w)
      ensures Decides(ChangeOf(Carrier(sv, w), w), Carrier(sv, w).data, path, At(Prune(ReplayedData(sv)), path))
    {
      LastWriterDecides(sv, path, w);
    }
  }

  lemma UnmentionedKeeps(s: set<Message>, lag: int, path: seq<string>)
    requires Mergeable(s, lag) && s != {} && path != []
    ensures var sv := Survivors(s, lag);
            sv != {} && ((forall i :: !Mentions(ReplayMap(sv), i, path))
                         ==> At(Prune(ReplayedData(sv)), path) == At(Greatest(s).data, path))
  {
    var sv := Survivors(s, lag);
    GreatestSurvives(s, lag);
    if forall i :: !Mentions(ReplayMap(sv), i, path) {
      PruneAtPath(ReplayedData(sv), path);
      Unmentioned(Greatest(s).data, Ids(ReplayMap(sv).Keys), ReplayMap(sv), path);
      assert Parsed(Greatest(s), lag);
      PrunedAtPath(Greatest(s).data, path);
    }
  }

  lemma LastWriterDecides(s: set<Message>, path: seq<string>, w: Id)
    requires IdsIdentify(s) && s != {} && path != [] && IsLastWriter(s, path, w)
    ensures Decides(ChangeOf(Carrier(s, w), w), Carrier(s, w).data, path, At(Prune(ReplayedData(s)), path))
  {
    var x := WriterDecides(s, path, w);
    PruneAtPath(ReplayedData(s), path);
    EffectDecides(x, ChangeOf(Carrier(s, w), w), Carrier(s, w).data, path);
  }

  lemma EffectDecides(x: Option<Value>, df: Diffs, src: Dict, path: seq<string>)
    requires path != [] && Touches(df, src, path)
    ensures Decides(df, src, path, PrunedSlotOf(Effect(x, df, src, path)))
  {
    if Reached(df, src, path) {
      SlotDecides(x, EntryAt(df, path).value, At(src, path));
    }
  }

  lemma SlotDecides(x: Option<Value>, e: Diff, src: Option<Value>)
    ensures DecidedBy(e, src, PrunedSlotOf(ApplySlot(x, e, src)))
  {
  }

  /** At a top-level key a change is mentioned exactly when it has an entry for the key. */
  lemma TopLevelMention(replay: map<Id, Step>, i: Id, k: string)
    ensures Mentions(replay, i, [k]) <==> i in replay && k in replay[i].diff
  {
  }
}
