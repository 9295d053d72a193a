/**
 Whole runs of a mutable config message: any number of edit-and-increment steps from a
 fresh message (src/config.cpp:461-487, 500-511, 724-729, 751-754).
 */
module ConfigRuns {
  import opened Options
  import opened Ordering
  import opened ConfigData
  import opened ConfigDiff
  import opened ConfigReplay
  import opened ConfigMerge
  import opened ConfigMergeLaws
  import opened WireMessage
  import opened ConfigMessage

  /** One step of a run: what the data is set to, and the hash the message then has. */
  datatype Edit = Edit(data: Dict, hash: string)

  function Edited(st: State, e: Edit): State {
    st.(data := e.data)
  }

  ghost predicate IsStep(trace: seq<State>, edits: seq<Edit>, lag: int, i: nat)
    requires i < |edits| && i + 1 < |trace|
  {
    trace[i + 1] == Next(Edited(trace[i], edits[i]), lag, edits[i].hash)
  }

  /** The states of a message that starts out fresh and is edited and incremented step by step. */
  ghost predicate IsRun(trace: seq<State>, edits: seq<Edit>, seqno: int, lag: int) {
    && |trace| == |edits| + 1 && trace[0] == Fresh(seqno)
    && forall i: nat | i < |edits| :: IsStep(trace, edits, lag, i) && |edits[i].hash| == HASH_SIZE
  }

  lemma {:induction false} RunHashed(trace: seq<State>, edits: seq<Edit>, seqno: int, lag: int, n: nat)
    requires IsRun(trace, edits, seqno, lag) && n < |trace|
    ensures Hashed(trace[n])
  {
    if n > 0 {
      RunHashed(trace, edits, seqno, lag, n - 1);
      assert IsStep(trace, edits, lag, n - 1);
    }
  }

  /** The data along a run: empty, then what each step made of it. */
  function States(edits: seq<Edit>): (r: seq<Dict>)
    ensures |r| == |edits| + 1
  {
    [map[]] + seq(|edits|, i requires 0 <= i < |edits| => Prune(edits[i].data))
  }

  /** The identities of the messages that a run leaves behind. */
  function MadeIds(seqno: int, edits: seq<Edit>): (r: seq<Id>)
    ensures |r| == |edits|
  {
    seq(|edits|, i requires 0 <= i < |edits| => Id(seqno + i, edits[i].hash))
  }

  /** The seqnos count up from `seqno`. */
  ghost predicate Consecutive(ids: seq<Id>, seqno: int) {
    forall i | 0 <= i < |ids| :: ids[i].seqno == seqno + i
  }

  // ----- which changes a map of lagged diffs holds -------------------------------------------

  /** Id `k` is one of the changes number `from` up to, not including, `n`. */
  ghost predicate InRun(ids: seq<Id>, seqno: int, from: int, n: int, k: Id) {
    0 <= from <= k.seqno - seqno < n <= |ids| && ids[k.seqno - seqno] == k
  }

  /** `m` holds exactly those changes. */
  ghost predicate HoldsRange(m: map<Id, Diffs>, ids: seq<Id>, diffs: seq<Diffs>, seqno: int, from: int, n: int) {
    && |ids| == |diffs| && 0 <= from <= n <= |ids|
    && (forall k :: k in m <==> InRun(ids, seqno, from, n, k))
    && (forall k | InRun(ids, seqno, from, n, k) :: k in m && m[k] == diffs[k.seqno - seqno])
  }

  function Max(a: int, b: int): int {
    if a < b then b else a
  }

  lemma HeldNext(m: map<Id, Diffs>, ids: seq<Id>, diffs: seq<Diffs>, seqno: int, from: int, n: int)
    requires HoldsRange(m, ids, diffs, seqno, from, n) && n < |ids| && ids[n].seqno == seqno + n
    ensures HoldsRange(m[ids[n] := diffs[n]], ids, diffs, seqno, from, n + 1)
  {
    forall k ensures InRun(ids, seqno, from, n + 1, k) <==> InRun(ids, seqno, from, n, k) || k == ids[n] { }
  }

  /** Trimming to the window of seqno `seqno + n` forgets the changes before number `n - lag + 1`. */
  lemma HeldWindow(m: map<Id, Diffs>, ids: seq<Id>, diffs: seq<Diffs>, seqno: int, from: int, n: int, lag: int)
    requires HoldsRange(m, ids, diffs, seqno, from, n) && lag >= 1
    ensures HoldsRange(Window(m, seqno + n, lag), ids, diffs, seqno, Max(from, n - lag + 1), n)
  {
    var to := Max(from, n - lag + 1);
    forall k ensures k in Window(m, seqno + n, lag) <==> InRun(ids, seqno, to, n, k) { }
  }

  lemma ConsecutiveSorted(ids: seq<Id>, from: nat, n: nat, seqno: int)
    requires Consecutive(ids, seqno) && from <= n <= |ids|
    ensures Sorted(ids[from..n], IdLess)
  {
    var part := ids[from..n];
    forall i, j | 0 <= i < j < |part| ensures IdLess(part[i], part[j]) {
      assert part[i] == ids[from + i] && part[j] == ids[from + j];
    }
  }

  lemma InRunPart(ids: seq<Id>, seqno: int, from: nat, n: nat, k: Id)
    requires Consecutive(ids, seqno) && from <= n <= |ids|
    ensures k in ids[from..n] <==> InRun(ids, seqno, from, n, k)
  {
    var part := ids[from..n];
    if k in part { var p :| 0 <= p < |part| && part[p] == k; assert ids[from + p] == k; }
    if InRun(ids, seqno, from, n, k) { assert part[k.seqno - seqno - from] == k; }
  }

  lemma HeldAt(m: map<Id, Diffs>, ids: seq<Id>, diffs: seq<Diffs>, seqno: int, from: int, n: int, p: int)
    requires HoldsRange(m, ids, diffs, seqno, from, n) && Consecutive(ids, seqno) && from <= p < n
    ensures ids[p] in m && m[ids[p]] == diffs[p]
  {
    assert InRun(ids, seqno, from, n, ids[p]);
  }

  lemma SortedIds(s: set<Id>, ids: seq<Id>)
    requires Sorted(ids, IdLess) && forall k :: k in ids <==> k in s
    ensures Ids(s) == ids
  {
    IdOrder();
    SortedUnique(Ids(s), ids, IdLess);
  }

  lemma HeldIds(m: map<Id, Diffs>, ids: seq<Id>, diffs: seq<Diffs>, seqno: int, from: int, n: int)
    requires HoldsRange(m, ids, diffs, seqno, from, n) && Consecutive(ids, seqno)
    ensures Ids(m.Keys) == ids[from..n]
  {
    ConsecutiveSorted(ids, from, n, seqno);
    forall k ensures k in ids[from..n] <==> k in m.Keys { InRunPart(ids, seqno, from, n, k); }
    SortedIds(m.Keys, ids[from..n]);
  }

  lemma ListsRows(m: map<Id, Diffs>, part: seq<Id>, rest: seq<Diffs>)
    requires Ids(m.Keys) == part && |part| == |rest|
    requires forall p | 0 <= p < |part| :: part[p] in m && m[part[p]] == rest[p]
    ensures Lists(m, rest)
  {
  }

  /** In ascending order, the held changes are a stretch of the run. */
  lemma PartRows(m: map<Id, Diffs>, ids: seq<Id>, diffs: seq<Diffs>, from: int, n: int)
    requires |ids| == |diffs| && 0 <= from <= n <= |ids|
    requires forall q | from <= q < n :: ids[q] in m && m[ids[q]] == diffs[q]
    ensures var part, rest := ids[from..n], diffs[from..n];
            forall p | 0 <= p < |part| :: part[p] in m && m[part[p]] == rest[p]
  {
    var part, rest := ids[from..n], diffs[from..n];
    forall p | 0 <= p < |part| ensures part[p] in m && m[part[p]] == rest[p] {
      assert part[p] == ids[from + p] && rest[p] == diffs[from + p];
    }
  }

  lemma HeldListed(m: map<Id, Diffs>, ids: seq<Id>, diffs: seq<Diffs>, seqno: int, from: int, n: int)
    requires HoldsRange(m, ids, diffs, seqno, from, n) && Consecutive(ids, seqno)
    ensures Ids(m.Keys) == ids[from..n] && Lists(m, diffs[from..n])
  {
    HeldIds(m, ids, diffs, seqno, from, n);
    forall q | from <= q < n ensures ids[q] in m && m[ids[q]] == diffs[q] { HeldAt(m, ids, diffs, seqno, from, n, q); }
    PartRows(m, ids, diffs, from, n);
    ListsRows(m, ids[from..n], diffs[from..n]);
  }

  // ----- the invariant along a run ---------------------------------------------------------------

  /** What step `i` of a run leaves behind: its id, the next state, and the diff between the two states. */
  ghost predicate StepLeaves(edits: seq<Edit>, seqno: int, ids: seq<Id>, hist: seq<Dict>, diffs: seq<Diffs>, i: nat)
    requires i < |edits| == |ids| == |diffs| && |hist| == |edits| + 1
  {
    && ids[i] == Id(seqno + i, edits[i].hash)
    && hist[i + 1] == Prune(edits[i].data) && diffs[i] == DiffDicts(hist[i], hist[i + 1])
  }

  ghost predicate Leaves(edits: seq<Edit>, seqno: int, ids: seq<Id>, hist: seq<Dict>, diffs: seq<Diffs>) {
    && |edits| == |ids| == |diffs| && |hist| == |edits| + 1 && hist[0] == map[]
    && forall i: nat | i < |edits| :: StepLeaves(edits, seqno, ids, hist, diffs, i)
  }

  lemma RunLeaves(edits: seq<Edit>, seqno: int)
    ensures Leaves(edits, seqno, MadeIds(seqno, edits), States(edits), StepDiffs(States(edits)))
    ensures Consecutive(MadeIds(seqno, edits), seqno)
  {
    forall i: nat | i < |edits|
      ensures StepLeaves(edits, seqno, MadeIds(seqno, edits), States(edits), StepDiffs(States(edits)), i)
    {
      StepDiffsAt(States(edits), i);
    }
  }

  /**
   After `n` steps: the seqno, the data to diff against, and in memory the last `lag`
   changes, one more than will be serialised.
   */
  ghost predicate AfterSteps(st: State, seqno: int, ids: seq<Id>, hist: seq<Dict>, diffs: seq<Diffs>, lag: int, n: nat)
    requires n < |hist|
  {
    && st.seqno == seqno + n && st.orig == hist[n]
    && HoldsRange(st.lagged, ids, diffs, seqno, Max(0, n - lag), n)
  }

  lemma StepKeeps(st: State, edits: seq<Edit>, seqno: int, ids: seq<Id>, hist: seq<Dict>, diffs: seq<Diffs>, lag: int, n: nat)
    requires Leaves(edits, seqno, ids, hist, diffs) && n < |edits| && lag >= 1
    requires AfterSteps(st, seqno, ids, hist, diffs, lag, n)
    ensures AfterSteps(Next(Edited(st, edits[n]), lag, edits[n].hash), seqno, ids, hist, diffs, lag, n + 1)
  {
    assert StepLeaves(edits, seqno, ids, hist, diffs, n);
    HeldWindow(st.lagged, ids, diffs, seqno, Max(0, n - lag), n, lag);
    HeldNext(Window(st.lagged, st.seqno, lag), ids, diffs, seqno, Max(0, n + 1 - lag), n);
  }

  lemma {:induction false} RunKeeps(trace: seq<State>, edits: seq<Edit>, seqno: int,
                                    ids: seq<Id>, hist: seq<Dict>, diffs: seq<Diffs>, lag: int, n: nat)
    requires IsRun(trace, edits, seqno, lag) && Leaves(edits, seqno, ids, hist, diffs) && lag >= 1 && n <= |edits|
    ensures AfterSteps(trace[n], seqno, ids, hist, diffs, lag, n)
    decreases n
  {
    if n > 0 {
      RunKeeps(trace, edits, seqno, ids, hist, diffs, lag, n - 1);
      assert IsStep(trace, edits, lag, n - 1);
      StepKeeps(trace[n - 1], edits, seqno, ids, hist, diffs, lag, n - 1);
    }
  }

  lemma WindowAfter(st: State, seqno: int, ids: seq<Id>, hist: seq<Dict>, diffs: seq<Diffs>, lag: int, n: nat)
    requires n < |hist| && AfterSteps(st, seqno, ids, hist, diffs, lag, n) && Consecutive(ids, seqno) && lag >= 1
    ensures Ids(Window(st.lagged, st.seqno, lag).Keys) == ids[Max(0, n - (lag - 1))..n]
    ensures Lists(Window(st.lagged, st.seqno, lag), diffs[Max(0, n - (lag - 1))..n])
  {
    HeldWindow(st.lagged, ids, diffs, seqno, Max(0, n - lag), n, lag);
    HeldListed(Window(st.lagged, st.seqno, lag), ids, diffs, seqno, Max(0, n - (lag - 1)), n);
  }

  /**
   The window over whole runs: after any n edit-and-increment steps from a fresh
   message, the lagged diffs that are serialised are exactly the most recent
   min(n, lag - 1) changes, in ascending order, each the diff between neighbouring
   states.
   */
  lemma WindowOverRuns(trace: seq<State>, edits: seq<Edit>, seqno: int, lag: int, n: nat)
    requires IsRun(trace, edits, seqno, lag) && lag >= 1 && n <= |edits|
    ensures var win := Window(trace[n].lagged, trace[n].seqno, lag);
            var first := Max(0, n - (lag - 1));
            && Ids(win.Keys) == MadeIds(seqno, edits)[first..n]
            && Lists(win, StepDiffs(States(edits))[first..n])
  {
    var ids, hist := MadeIds(seqno, edits), States(edits);
    RunLeaves(edits, seqno);
    RunKeeps(trace, edits, seqno, ids, hist, StepDiffs(hist), lag, n);
    WindowAfter(trace[n], seqno, ids, hist, StepDiffs(hist), lag, n);
  }

  // ----- runs feed the merge ----------------------------------------------------------------------

  lemma LineOf(m: Message, hist: seq<Dict>)
    requires hist != [] && hist[|hist| - 1] == m.data && Lists(Carried(m), StepDiffs(hist))
    ensures Linear(m, hist)
  {
  }

  lemma {:induction false} StepDiffsOfPrefix(hist: seq<Dict>, n: nat)
    requires n < |hist|
    ensures StepDiffs(hist[..n + 1]) == StepDiffs(hist)[..n]
    decreases |hist|
  {
    if n > 0 {
      assert hist[..n + 1][1..] == hist[1..][..n];
      StepDiffsOfPrefix(hist[1..], n - 1);
    }
  }

  lemma StepDiffsOfPart(hist: seq<Dict>, from: nat, n: nat)
    requires from <= n < |hist|
    ensures StepDiffs(hist[from..n + 1]) == StepDiffs(hist)[from..n]
  {
    StepDiffsOfPrefix(hist, n);
    StepDiffsOfSuffix(hist[..n + 1], from);
    assert hist[..n + 1][from..] == hist[from..n + 1];
    assert StepDiffs(hist)[..n][from..] == StepDiffs(hist)[from..n];
  }

  /**
   Every message sent along a run carries a line of states that ends in its data, which
   is what `ConfigMergeLaws.ConcurrentEdits` asks of the common base of two edits.
   */
  lemma RunSendsLine(trace: seq<State>, edits: seq<Edit>, seqno: int, lag: int, n: nat)
    requires IsRun(trace, edits, seqno, lag) && lag >= 1 && n < |edits|
    ensures var m := Sent(Edited(trace[n], edits[n]), lag, edits[n].hash);
            var from := Max(0, n + 1 - lag);
            Linear(m, States(edits)[from..n + 2]) && Parsed(m, lag)
  {
    var ids, hist, st := MadeIds(seqno, edits), States(edits), Edited(trace[n], edits[n]);
    SentHolds(trace, edits, seqno, lag, n);
    RunHashed(trace, edits, seqno, lag, n);
    SentIsParsed(st, lag, edits[n].hash);
    assert hist[n + 1] == Prune(edits[n].data);
    RangeIsLine(Sent(st, lag, edits[n].hash), ids, hist, seqno, Max(0, n + 1 - lag), n + 1);
  }

  lemma SentHolds(trace: seq<State>, edits: seq<Edit>, seqno: int, lag: int, n: nat)
    requires IsRun(trace, edits, seqno, lag) && lag >= 1 && n < |edits|
    ensures var m := Sent(Edited(trace[n], edits[n]), lag, edits[n].hash);
            var ids := MadeIds(seqno, edits);
            HoldsRange(Carried(m), ids, StepDiffs(States(edits)), seqno, Max(0, n + 1 - lag), n + 1) && Consecutive(ids, seqno)
  {
    var ids, hist, st := MadeIds(seqno, edits), States(edits), Edited(trace[n], edits[n]);
    RunLeaves(edits, seqno);
    RunKeeps(trace, edits, seqno, ids, hist, StepDiffs(hist), lag, n);
    StepKeeps(trace[n], edits, seqno, ids, hist, StepDiffs(hist), lag, n);
    SentCarries(st, lag, edits[n].hash);
  }

  lemma RangeIsLine(m: Message, ids: seq<Id>, hist: seq<Dict>, seqno: int, from: nat, n: nat)
    requires from <= n < |hist| && hist[n] == m.data && Consecutive(ids, seqno)
    requires HoldsRange(Carried(m), ids, StepDiffs(hist), seqno, from, n)
    ensures Linear(m, hist[from..n + 1])
  {
    HeldListed(Carried(m), ids, StepDiffs(hist), seqno, from, n);
    StepDiffsOfPart(hist, from, n);
    LastOfPart(hist, from, n + 1);
    HeldLine(m, hist[from..n + 1], StepDiffs(hist)[from..n]);
  }

  lemma LastOfPart(hist: seq<Dict>, from: nat, n: nat)
    requires from < n <= |hist|
    ensures hist[from..n] != [] && hist[from..n][|hist[from..n]| - 1] == hist[n - 1]
  {
  }

  lemma HeldLine(m: Message, part: seq<Dict>, diffs: seq<Diffs>)
    requires part != [] && part[|part| - 1] == m.data && StepDiffs(part) == diffs && Lists(Carried(m), diffs)
    ensures Linear(m, part)
  {
    LineOf(m, part);
  }

  /** The merge of `hi` and `lo`, two children of `base`, is the three-way merge in which `hi` wins. */
  ghost predicate MergedOver(s: set<Message>, lag: int, base: Message, hi: Message, lo: Message) {
    && Mergeable(s, lag) && s != {}
    && var r := MergeSet(s, lag, true);
       r.Merged? && r.seqno == base.id.seqno + 2 && r.data == Prune(ThreeWay(base.data, hi.data, lo.data))
  }

  lemma ChildrenMerge(base: Message, hist: seq<Dict>, a: Message, b: Message, lag: int)
    requires lag >= 1 && Linear(base, hist) && Parsed(base, lag) && Parsed(a, lag) && Parsed(b, lag)
    requires a == Child(base, a.data, a.id.hash, lag) && b == Child(base, b.data, b.id.hash, lag) && a.id.hash != b.id.hash
    ensures if IdLess(b.id, a.id) then MergedOver({a, b}, lag, base, a, b) else MergedOver({a, b}, lag, base, b, a)
  {
    assert Siblings(base, hist, a, b, {a, b}, lag);
    IdTotal(a.id, b.id);
    if IdLess(b.id, a.id) {
      GreaterChild(base, hist, a, b, {a, b}, lag);
    } else {
      SiblingsSwap(base, hist, a, b, {a, b}, lag);
      GreaterChild(base, hist, b, a, {a, b}, lag);
    }
  }

  lemma GreaterChild(base: Message, hist: seq<Dict>, hi: Message, lo: Message, s: set<Message>, lag: int)
    requires Siblings(base, hist, hi, lo, s, lag) && IdLess(lo.id, hi.id)
    ensures MergedOver(s, lag, base, hi, lo)
  {
    ConcurrentEdits(base, hist, hi, lo, s, lag);
  }
}
