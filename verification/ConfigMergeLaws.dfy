/**
 What merging promises: absorption of the inputs by the result, and no lost concurrent
 edits.
 */
module ConfigMergeLaws {
  import opened Options
  import opened Ordering
  import opened ConfigData
  import opened ConfigDiff
  import opened ConfigApply
  import opened ConfigReplay
  import opened ConfigMerge

  // ----- absorption --------------------------------------------------------------------

  /**
   A merge result as every other device sees it: serialised, hashed and parsed again.
   Its own diff depends on how it was made mutable before being sent, so it is left open.
   */
  function Published(r: Outcome, lag: int, hash: string, diff: Diffs): Message
    requires r.Merged?
  {
    Message(Id(r.seqno, hash), r.data, diff, Window(r.lagged, r.seqno, lag))
  }

  /** A newest message absorbs older ones that it lists, that are too old, or that were redundant anyway. */
  lemma Absorbs(s: set<Message>, m: Message, lag: int, canMerge: bool)
    requires Mergeable(s, lag) && Parsed(m, lag)
    requires forall o | o in s :: o.id.seqno < m.id.seqno
    requires forall o | o in s :: Included(o, s) || o.id in m.lagged || o.id.seqno + lag <= m.id.seqno
    ensures m !in s && Mergeable(s + {m}, lag) && MergeSet(s + {m}, lag, canMerge) == Unmerged(m)
  {
    var t := s + {m};
    NewestIsGreatest(s, m, lag);
    GreatestSurvives(t, lag);
    forall o | o in s ensures o !in Survivors(t, lag) {
      NotAlone(s, m, o, lag);
    }
    assert Survivors(t, lag) == {m};
  }

  lemma NewestIsGreatest(s: set<Message>, m: Message, lag: int)
    requires Mergeable(s, lag) && Parsed(m, lag)
    requires forall o | o in s :: o.id.seqno < m.id.seqno
    ensures m !in s && Mergeable(s + {m}, lag) && Greatest(s + {m}) == m
  {
    var t := s + {m};
    assert IdsIdentify(t);
    assert IsGreatest(m, t);
    GreatestUnique(m, t);
  }

  lemma NotAlone(s: set<Message>, m: Message, o: Message, lag: int)
    requires IdsIdentify(s + {m}) && Greatest(s + {m}) == m && o in s
    requires Included(o, s) || o.id in m.lagged || o.id.seqno + lag <= m.id.seqno
    ensures o !in Survivors(s + {m}, lag)
  {
    var t := s + {m};
    if Included(o, s) {
      var p :| p in s && o.id in p.lagged;
      assert p in t && Included(o, t);
    } else if o.id in m.lagged {
      assert m in t && Included(o, t);
    } else {
      assert TooOld(o, t, lag);
    }
  }

  /**
   Merging a published merge result with all the messages it was made from gives that
   result back, unmerged: each input is listed in it, redundant through another input,
   or too old.
   */
  lemma Absorption(s: set<Message>, lag: int, hash: string, diff: Diffs, canMerge: bool)
    requires Mergeable(s, lag) && s != {} && MergeSet(s, lag, true).Merged? && |hash| == HASH_SIZE
    ensures var m := Published(MergeSet(s, lag, true), lag, hash, diff);
            && m !in s && Mergeable(s + {m}, lag)
            && MergeSet(s + {m}, lag, canMerge) == Unmerged(m)
  {
    var m := Published(MergeSet(s, lag, true), lag, hash, diff);
    PublishedIsParsed(s, lag, hash, diff);
    forall o | o in s
      ensures o.id.seqno < m.id.seqno
      ensures Included(o, s) || o.id in m.lagged || o.id.seqno + lag <= m.id.seqno
    {
      GreatestIsMaxSeqno(s, o);
      if o in Survivors(s, lag) { InputIsListed(s, lag, o); }
    }
    Absorbs(s, m, lag, canMerge);
  }

  lemma PublishedIsParsed(s: set<Message>, lag: int, hash: string, diff: Diffs)
    requires Mergeable(s, lag) && s != {} && MergeSet(s, lag, true).Merged? && |hash| == HASH_SIZE
    ensures Parsed(Published(MergeSet(s, lag, true), lag, hash, diff), lag)
    ensures forall i | i in MergeSet(s, lag, true).lagged :: |i.hash| == HASH_SIZE
  {
    var sv := Survivors(s, lag);
    PruneIsPruned(ReplayedData(sv));
    forall i | i in ReplayMap(sv) ensures |i.hash| == HASH_SIZE {
      assert Parsed(Carrier(sv, i), lag);
    }
  }

  lemma InputIsListed(s: set<Message>, lag: int, o: Message)
    requires Mergeable(s, lag) && s != {} && MergeSet(s, lag, true).Merged?
    requires o in Survivors(s, lag)
    ensures o.id in MergeSet(s, lag, true).lagged
  {
    assert o.id in {o.id} + o.lagged.Keys;
    assert o.id in KnownIds(Survivors(s, lag));
  }

  // ----- running steps ------------------------------------------------------------------

  lemma {:induction false} RunStepsAppend(data: Dict, a: seq<Id>, b: seq<Id>, replay: map<Id, Step>)
    ensures RunSteps(data, a + b, replay) == RunSteps(RunSteps(data, a, replay), b, replay)
    decreases |a|
  {
    if a == [] {
      assert a + b == b;
    } else {
      assert (a + b)[1..] == a[1..] + b;
      RunStepsAppend(RunStep(data, a[0], replay), a[1..], b, replay);
    }
  }

  lemma PruneLookup(d: Dict, k: string)
    ensures k !in d ==> k !in Prune(d)
    ensures k in d && d[k].ScalarV? ==> Get(Prune(d), k) == Get(d, k)
    ensures AsSet(Get(Prune(d), k)) == AsSet(Get(d, k))
    ensures k in d && PrunedValue(d[k]) ==> Get(Prune(d), k) == Get(d, k)
  {
    if k in d && d[k].DictV? { PruneFixesPruned(d[k].dict); }
  }

  // ----- no lost concurrent edits ----------------------------------------------------------

  function Carried(m: Message): map<Id, Diffs> {
    m.lagged + map[m.id := m.diff]
  }

  /** Increment `base`, set the data, serialise and parse again (src/config.cpp:461-487, 724-729, 751-754). */
  function Child(base: Message, data: Dict, hash: string, lag: int): Message {
    Message(Id(base.id.seqno + 1, hash), data, DiffDicts(base.data, data),
            Window(Carried(base), base.id.seqno + 1, lag))
  }

  /** The changes that `m` carries are the steps of one line of states ending in its data. */
  ghost predicate Linear(m: Message, hist: seq<Dict>) {
    var ids := Ids(Carried(m).Keys);
    && |hist| == |ids| + 1 && hist[|ids|] == m.data
    && forall p | 0 <= p < |ids| :: Carried(m)[ids[p]] == StepDiffs(hist)[p]
  }

  /**
   The three-way merge of two edits of one base, at every depth.  What `hi` changed is
   as in `hi`, down to single keys of dicts and single members of sets; everything
   else is as in `lo`.
   */
  function ThreeWay(base: Dict, hi: Dict, lo: Dict): Dict
    decreases DictV(hi), 0
  {
    map k | k in hi.Keys + lo.Keys && ThreeWayKey(base, hi, lo, k).Some? :: ThreeWayKey(base, hi, lo, k).value
  }

  function ThreeWayKey(base: Dict, hi: Dict, lo: Dict, k: string): Option<Value>
    decreases DictV(hi), 0, 0
  {
    if Get(hi, k) == Get(base, k) then Get(lo, k)
    else if k in hi then Some(ThreeWaySlot(Get(base, k), hi[k], Get(lo, k)))
    else None
  }

  function ThreeWaySlot(base: Option<Value>, hi: Value, lo: Option<Value>): Value
    decreases hi, 1
  {
    match hi
    case ScalarV(_) => hi
    case SetV(s) => SetV((s - AsSet(base)) + (s * AsSet(lo)) + (AsSet(lo) - AsSet(base)))
    case DictV(d) => DictV(ThreeWay(AsDict(base), d, AsDict(lo)))
  }

  lemma ThreeWayLookup(base: Dict, hi: Dict, lo: Dict, k: string)
    ensures Get(ThreeWay(base, hi, lo), k) == ThreeWayKey(base, hi, lo, k)
  {
  }

  /** A member of a set follows the side that changed it. */
  lemma ThreeWayMember(base: Option<Value>, hi: Value, lo: Option<Value>, x: Scalar)
    requires hi.SetV?
    ensures x in ThreeWaySlot(base, hi, lo).elems <==>
            x in (if x in hi.elems <==> x in AsSet(base) then AsSet(lo) else hi.elems)
  {
  }

  /** No scalar, and no kind of container, is changed in two different ways by the two sides. */
  ghost predicate NoConflict(base: Dict, a: Dict, b: Dict)
    decreases DictV(a), 0
  {
    forall k :: NoConflictAt(base, a, b, k)
  }

  ghost predicate NoConflictAt(base: Dict, a: Dict, b: Dict, k: string)
    decreases DictV(a), 0, 0
  {
    || Get(a, k) == Get(base, k) || Get(b, k) == Get(base, k) || Get(a, k) == Get(b, k)
    || (k in a && k in b && a[k].SetV? && b[k].SetV?)
    || (k in a && k in b && a[k].DictV? && b[k].DictV? && NoConflict(AsDict(Get(base, k)), a[k].dict, b[k].dict))
  }

  lemma {:induction false} ThreeWaySame(base: Dict, a: Dict)
    ensures ThreeWay(base, a, a) == a && ThreeWay(base, a, base) == a && ThreeWay(base, base, a) == a
    decreases DictV(a)
  {
    forall k ensures ThreeWayKey(base, a, a, k) == Get(a, k) && ThreeWayKey(base, a, base, k) == Get(a, k) {
      if k in a && a[k].DictV? { ThreeWaySame(AsDict(Get(base, k)), a[k].dict); }
      if k in a && a[k].SetV? {
        var s, t := a[k].elems, AsSet(Get(base, k));
        assert (s - t) + (s * s) + (s - t) == s && (s - t) + (s * t) + (t - t) == s;
      }
    }
    forall k ensures Get(ThreeWay(base, a, a), k) == Get(a, k) { ThreeWayLookup(base, a, a, k); }
    SameLookups(ThreeWay(base, a, a), a);
    forall k ensures Get(ThreeWay(base, a, base), k) == Get(a, k) { ThreeWayLookup(base, a, base, k); }
    SameLookups(ThreeWay(base, a, base), a);
    forall k ensures Get(ThreeWay(base, base, a), k) == Get(a, k) { ThreeWayLookup(base, base, a, k); }
    SameLookups(ThreeWay(base, base, a), a);
  }

  /** Without a conflict the result does not depend on which side is the greater. */
  lemma {:induction false} NoConflictNoOrder(base: Dict, a: Dict, b: Dict)
    requires NoConflict(base, a, b)
    ensures ThreeWay(base, a, b) == ThreeWay(base, b, a)
    decreases DictV(a)
  {
    forall k ensures Get(ThreeWay(base, a, b), k) == Get(ThreeWay(base, b, a), k) {
      ThreeWayLookup(base, a, b, k);
      ThreeWayLookup(base, b, a, k);
      assert NoConflictAt(base, a, b, k);
      var o, x, y := Get(base, k), Get(a, k), Get(b, k);
      if x == y || x == o || y == o {
        SlotSame(o, x, y);
      } else if x.value.DictV? {
        NoConflictNoOrder(AsDict(o), x.value.dict, y.value.dict);
      } else {
        var s, t, u := x.value.elems, y.value.elems, AsSet(o);
        assert (s - u) + (s * t) + (t - u) == (t - u) + (t * s) + (s - u);
      }
    }
    SameLookups(ThreeWay(base, a, b), ThreeWay(base, b, a));
  }

  lemma SlotSame(o: Option<Value>, x: Option<Value>, y: Option<Value>)
    ensures x.Some? ==> ThreeWaySlot(o, x.value, x) == x.value && ThreeWaySlot(o, x.value, o) == x.value
    ensures y.Some? ==> ThreeWaySlot(o, y.value, y) == y.value && ThreeWaySlot(o, y.value, o) == y.value
  {
    OneSlotSame(o, x);
    OneSlotSame(o, y);
  }

  lemma OneSlotSame(o: Option<Value>, x: Option<Value>)
    ensures x.Some? ==> ThreeWaySlot(o, x.value, x) == x.value && ThreeWaySlot(o, x.value, o) == x.value
  {
    if x.Some? && x.value.DictV? { ThreeWaySame(AsDict(o), x.value.dict); }
    if x.Some? && x.value.SetV? {
      var s, t := x.value.elems, AsSet(o);
      assert (s - t) + (s * s) + (s - t) == s && (s - t) + (s * t) + (t - t) == s;
    }
  }

  /** The ids above a seqno form a suffix. */
  lemma {:induction false} WindowIsSuffix(ids: seq<Id>, low: int) returns (c: nat)
    requires Sorted(ids, IdLess)
    ensures c <= |ids| && forall p | 0 <= p < |ids| :: low < ids[p].seqno <==> c <= p
    decreases |ids|
  {
    if ids == [] || low < ids[0].seqno {
      c := 0;
      forall p | 0 <= p < |ids| ensures low < ids[p].seqno { assert p == 0 || IdLess(ids[0], ids[p]); }
    } else {
      c := WindowIsSuffix(ids[1..], low);
      c := c + 1;
      forall p | 0 <= p < |ids| ensures low < ids[p].seqno <==> c <= p { assert p == 0 || ids[p] == ids[1..][p - 1]; }
    }
  }

  /** A child's window is the tail of what its base carries. */
  lemma ChildLine(base: Message, lag: int) returns (c: nat)
    requires Parsed(base, lag)
    ensures c <= |Ids(Carried(base).Keys)|
    ensures Ids(Window(Carried(base), base.id.seqno + 1, lag).Keys) == Ids(Carried(base).Keys)[c..]
  {
    var ids, w := Ids(Carried(base).Keys), Window(Carried(base), base.id.seqno + 1, lag);
    c := WindowIsSuffix(ids, base.id.seqno + 1 - lag);
    forall i ensures i in Ids(w.Keys) <==> i in ids[c..] { InTail(ids, c, base.id.seqno + 1 - lag, i); }
    IdOrder();
    SortedUnique(Ids(w.Keys), ids[c..], IdLess);
  }

  lemma InTail(ids: seq<Id>, c: nat, low: int, i: Id)
    requires c <= |ids| && forall p | 0 <= p < |ids| :: low < ids[p].seqno <==> c <= p
    ensures i in ids[c..] <==> i in ids && low < i.seqno
  {
    if i in ids[c..] {
      var q :| c <= q < |ids| && ids[q] == i;
    }
    if i in ids && low < i.seqno {
      var p :| 0 <= p < |ids| && ids[p] == i;
      assert ids[c..][p - c] == i;
    }
  }

  /** Steps that all take their values from one message are a replay with one source. */
  lemma {:induction false} OneSource(data: Dict, ids: seq<Id>, replay: map<Id, Step>, src: Dict, diffs: seq<Diffs>)
    requires |diffs| == |ids|
    requires forall p | 0 <= p < |ids| :: ids[p] in replay && replay[ids[p]] == Step(src, diffs[p])
    ensures RunSteps(data, ids, replay) == Replay(data, diffs, src)
    decreases |ids|
  {
    if ids != [] {
      OneSource(RunStep(data, ids[0], replay), ids[1..], replay, src, diffs[1..]);
    }
  }

  /** With no trace left of the lesser side, the greater side's own changes are what remains. */
  lemma {:induction false} MeetNothing(base: Dict, hi: Dict)
    ensures Apply(map[], DiffDicts(base, hi), hi) == ThreeWay(base, hi, map[])
    decreases DictV(hi)
  {
    var df := DiffDicts(base, hi);
    forall k ensures Get(Apply(map[], df, hi), k) == Get(ThreeWay(base, hi, map[]), k) {
      ApplyLookup(map[], df, hi, k);
      DiffLookup(base, hi, k);
      ThreeWayLookup(base, hi, map[], k);
      if k in df && k in hi {
        var o, h := Get(base, k), hi[k];
        if h.DictV? { MeetNothing(AsDict(o), h.dict); }
        if h.SetV? {
          var s, t := h.elems, AsSet(o);
          assert {} + (s - t) - (t - s) == (s - t) + (s * {}) + ({} - t);
        }
      }
    }
    SameLookups(Apply(map[], df, hi), ThreeWay(base, hi, map[]));
  }

  /** The two edits replayed on top of the line, lesser first: the three-way merge. */
  lemma {:induction false} EditsMeet(base: Dict, hi: Dict, lo: Dict, x: Dict)
    requires Pruned(hi) && Faithful(base, hi, x)
    ensures Apply(Apply(x, DiffDicts(base, lo), lo), DiffDicts(base, hi), hi) == ThreeWay(base, hi, lo)
    decreases DictV(hi), 0
  {
    var dl, dh := DiffDicts(base, lo), DiffDicts(base, hi);
    var y := Apply(x, dl, lo);
    forall k ensures Get(Apply(y, dh, hi), k) == Get(ThreeWay(base, hi, lo), k) {
      ApplyLookup(x, dl, lo, k);
      ApplyLookup(y, dh, hi, k);
      DiffLookup(base, hi, k);
      ThreeWayLookup(base, hi, lo, k);
      if Get(hi, k) == Get(base, k) {
        FaithfulAgrees(base, hi, x, k);
        SlotExact(base, lo, k);
        assert ApplyKey(x, dl, lo, k) == ApplyKey(base, dl, lo, k);
      } else if k in hi {
        assert PrunedValue(hi[k]) && FaithfulKey(base, hi, x, k);
        DiffLookup(base, lo, k);
        SlotsMeet(Get(base, k), hi[k], Get(lo, k), Get(x, k), Get(y, k));
      }
    }
    SameLookups(Apply(y, dh, hi), ThreeWay(base, hi, lo));
  }

  lemma {:induction false} SlotsMeet(base: Option<Value>, hi: Value, lo: Option<Value>, x: Option<Value>, y: Option<Value>)
    requires PrunedValue(hi) && FaithfulSlot(base, hi, x) && base != Some(hi)
    requires y == if lo == base then x else ApplySlot(x, DiffSlot(base, lo), lo)
    ensures ApplySlot(y, DiffSlot(base, Some(hi)), Some(hi)) == Some(ThreeWaySlot(base, hi, lo))
    decreases hi, 2
  {
    match hi {
      case ScalarV(_) =>
      case SetV(s) => MembersMeet(base, s, lo, x, y);
      case DictV(d) => DictsMeet(base, d, lo, x, y);
    }
  }

  lemma {:induction false} DictsMeet(base: Option<Value>, d: Dict, lo: Option<Value>, x: Option<Value>, y: Option<Value>)
    requires PrunedValue(DictV(d)) && FaithfulSlot(base, DictV(d), x) && base != Some(DictV(d))
    requires y == if lo == base then x else ApplySlot(x, DiffSlot(base, lo), lo)
    ensures Apply(AsDict(y), DiffDicts(AsDict(base), d), d) == ThreeWay(AsDict(base), d, AsDict(lo))
    decreases DictV(d), 1
  {
    if lo == base {
      EditsMeet(AsDict(base), d, AsDict(lo), AsDict(x));
      NoDiff(AsDict(x), AsDict(base));
    } else if lo.Some? && lo.value.DictV? {
      EditsMeet(AsDict(base), d, AsDict(lo), AsDict(x));
    } else {
      assert AsDict(y) == map[] && AsDict(lo) == map[];
      MeetNothing(AsDict(base), d);
    }
  }

  lemma NoDiff(x: Dict, base: Dict)
    ensures Apply(x, DiffDicts(base, base), base) == x
  {
    DiffEmptyIffEqual(base, base);
    forall k ensures Get(Apply(x, map[], base), k) == Get(x, k) { ApplyLookup(x, map[], base, k); }
    SameLookups(Apply(x, map[], base), x);
  }

  lemma MembersMeet(base: Option<Value>, s: set<Scalar>, lo: Option<Value>, x: Option<Value>, y: Option<Value>)
    requires FaithfulSlot(base, SetV(s), x) && base != Some(SetV(s))
    requires y == if lo == base then x else ApplySlot(x, DiffSlot(base, lo), lo)
    ensures ApplySlot(y, DiffSlot(base, Some(SetV(s))), Some(SetV(s))) == Some(ThreeWaySlot(base, SetV(s), lo))
  {
    var o, l := AsSet(base), AsSet(lo);
    assert AsSet(y) + (s - o) - (o - s) == (s - o) + (s * l) + (l - o);
  }

  /** The messages a pair of concurrent children is merged with: nothing newer, nothing unknown. */
  ghost predicate OnlyOlder(s: set<Message>, a: Message, b: Message, lag: int) {
    forall m | m in s && m != a && m != b ::
      m.id in a.lagged || (m.id.seqno < a.id.seqno && m.id.seqno + lag <= a.id.seqno)
  }

  lemma PairSurvives(s: set<Message>, a: Message, b: Message, lag: int)
    requires Mergeable(s, lag) && a in s && b in s && a.id.seqno == b.id.seqno && OnlyOlder(s, a, b, lag)
    ensures Survivors(s, lag) == {a, b} && MaxSeqno(s) == a.id.seqno
  {
    GreatestIsMaxSeqno(s, a);
    forall m | m in s ensures m.id.seqno <= a.id.seqno { }
    forall o | o in s ensures a.id !in o.lagged && b.id !in o.lagged { assert Parsed(o, lag); }
    forall m | m in s ensures m in Survivors(s, lag) <==> m == a || m == b { }
  }

  lemma PairIds(g: Message, l: Message, w: seq<Id>)
    requires g.lagged == l.lagged && w == Ids(g.lagged.Keys) && IdLess(l.id, g.id)
    requires forall i | i in g.lagged :: i.seqno < l.id.seqno
    ensures Ids(KnownIds({g, l})) == w + [l.id, g.id]
  {
    var ids := w + [l.id, g.id];
    IdOrder();
    forall i, j | 0 <= i < j < |ids| ensures IdLess(ids[i], ids[j]) {
      if j >= |w| && i < |w| { assert w[i] in w; }
    }
    forall i ensures i in ids <==> i in KnownIds({g, l}) {
      assert i in KnownIds({g, l}) <==> i == g.id || i == l.id || i in g.lagged by {
        if i == g.id || i in g.lagged { assert g in {g, l} && i in {g.id} + g.lagged.Keys; }
        if i == l.id { assert l in {g, l} && i in {l.id} + l.lagged.Keys; }
      }
    }
    SortedUnique(Ids(KnownIds({g, l})), ids, IdLess);
  }

  lemma PairCarrier(g: Message, l: Message, i: Id)
    requires g.lagged == l.lagged && IdLess(l.id, g.id) && i in KnownIds({g, l})
    requires IdsIdentify({g, l}) && l.id !in g.lagged && g.id !in g.lagged
    ensures ReplayMap({g, l})[i] == if i == l.id then Take(l, i) else Take(g, i)
  {
    var all := CarriersOf({g, l}, i);
    IdTotal(g.id, l.id);
    if i == l.id {
      assert all == {l};
    } else {
      assert g in all;
      assert IsGreatest(g, all);
      GreatestUnique(g, all);
    }
  }

  /** The changes of `w` in ascending order are `diffs`. */
  ghost predicate Lists(w: map<Id, Diffs>, diffs: seq<Diffs>) {
    var ids := Ids(w.Keys);
    |ids| == |diffs| && forall p | 0 <= p < |ids| :: ids[p] in w && w[ids[p]] == diffs[p]
  }

  /** Every change of `w` is replayed with `src` as its source. */
  ghost predicate Sourced(w: map<Id, Diffs>, replay: map<Id, Step>, src: Dict) {
    forall i | i in w :: i in replay && replay[i] == Step(src, w[i])
  }

  lemma RunIsReplay(data: Dict, w: map<Id, Diffs>, replay: map<Id, Step>, src: Dict, diffs: seq<Diffs>)
    requires Lists(w, diffs) && Sourced(w, replay, src)
    ensures RunSteps(data, Ids(w.Keys), replay) == Replay(data, diffs, src)
  {
    OneSource(data, Ids(w.Keys), replay, src, diffs);
  }

  /** The changes in a child's window are the last steps of the base's line. */
  lemma LineTail(base: Message, hist: seq<Dict>, lag: int) returns (c: nat)
    requires Linear(base, hist) && Parsed(base, lag)
    ensures c < |hist|
    ensures Lists(Window(Carried(base), base.id.seqno + 1, lag), StepDiffs(hist[c..]))
  {
    var ids, w := Ids(Carried(base).Keys), Window(Carried(base), base.id.seqno + 1, lag);
    c := ChildLine(base, lag);
    StepDiffsOfSuffix(hist, c);
    var ws := Ids(w.Keys);
    forall p | 0 <= p < |ws| ensures ws[p] in w && w[ws[p]] == StepDiffs(hist[c..])[p] {
      assert ws[p] in ws && ws[p] == ids[c + p];
    }
  }

  /** The replay of a pair of children: the common line from the greater one, then each its own change. */
  ghost predicate PairMap(g: Message, l: Message, replay: map<Id, Step>) {
    && Sourced(g.lagged, replay, g.data)
    && l.id in replay && replay[l.id] == Step(l.data, l.diff)
    && g.id in replay && replay[g.id] == Step(g.data, g.diff)
  }

  lemma PairReplayMap(g: Message, l: Message)
    requires g.lagged == l.lagged && IdLess(l.id, g.id) && IdsIdentify({g, l})
    requires forall i | i in g.lagged :: i.seqno < l.id.seqno
    ensures PairMap(g, l, ReplayMap({g, l})) && Greatest({g, l}) == g
  {
    IdTotal(g.id, l.id);
    assert IsGreatest(g, {g, l});
    GreatestUnique(g, {g, l});
    assert g in {g, l} && g.id in {g.id} + g.lagged.Keys && l in {g, l} && l.id in {l.id} + l.lagged.Keys;
    PairCarrier(g, l, g.id);
    PairCarrier(g, l, l.id);
    forall i | i in g.lagged ensures i in KnownIds({g, l}) && ReplayMap({g, l})[i] == Step(g.data, g.lagged[i]) {
      assert i in {g.id} + g.lagged.Keys;
      PairCarrier(g, l, i);
    }
  }

  lemma PairRun(base: Message, hist: seq<Dict>, g: Message, l: Message, lag: int, replay: map<Id, Step>)
    requires Linear(base, hist) && Parsed(base, lag)
    requires g == Child(base, g.data, g.id.hash, lag) && l == Child(base, l.data, l.id.hash, lag)
    requires Pruned(g.data) && PairMap(g, l, replay)
    ensures RunSteps(g.data, Ids(g.lagged.Keys) + [l.id, g.id], replay) == ThreeWay(base.data, g.data, l.data)
  {
    LineFirst(base, hist, g, lag, replay);
    var x := RunSteps(g.data, Ids(g.lagged.Keys), replay);
    EditsMeet(base.data, g.data, l.data, x);
    RunStepsAppend(g.data, Ids(g.lagged.Keys), [l.id, g.id], replay);
    TwoSteps(x, l.id, g.id, replay);
  }

  lemma PairReplay(base: Message, hist: seq<Dict>, g: Message, l: Message, lag: int)
    requires Linear(base, hist) && Parsed(base, lag)
    requires g == Child(base, g.data, g.id.hash, lag) && l == Child(base, l.data, l.id.hash, lag)
    requires Pruned(g.data) && IdLess(l.id, g.id) && IdsIdentify({g, l})
    ensures ReplayedData({g, l}) == ThreeWay(base.data, g.data, l.data)
  {
    PairReplayMap(g, l);
    PairIds(g, l, Ids(g.lagged.Keys));
    PairRun(base, hist, g, l, lag, ReplayMap({g, l}));
  }

  lemma TailFaithful(hist: seq<Dict>, c: nat, goal: Dict)
    requires c < |hist|
    ensures Faithful(hist[|hist| - 1], goal, Replay(goal, StepDiffs(hist[c..]), goal))
  {
    FaithfulStart(hist[c..][0], goal);
    ReplayFaithful(hist[c..], goal, goal);
  }

  /** The common line, replayed with the greater child's values, is faithful to the greater child. */
  lemma LineFirst(base: Message, hist: seq<Dict>, g: Message, lag: int, replay: map<Id, Step>)
    requires Linear(base, hist) && Parsed(base, lag)
    requires g == Child(base, g.data, g.id.hash, lag)
    requires Sourced(g.lagged, replay, g.data)
    ensures Faithful(base.data, g.data, RunSteps(g.data, Ids(g.lagged.Keys), replay))
  {
    var c := LineTail(base, hist, lag);
    LineEnds(base, hist);
    var w := Window(Carried(base), base.id.seqno + 1, lag);
    assert g.lagged == w;
    LineReplay(w, hist, c, g.data, replay);
  }

  lemma LineEnds(m: Message, hist: seq<Dict>)
    requires Linear(m, hist)
    ensures hist != [] && hist[|hist| - 1] == m.data
  {
  }

  lemma LineReplay(w: map<Id, Diffs>, hist: seq<Dict>, c: nat, goal: Dict, replay: map<Id, Step>)
    requires c < |hist| && Lists(w, StepDiffs(hist[c..])) && Sourced(w, replay, goal)
    ensures Faithful(hist[|hist| - 1], goal, RunSteps(goal, Ids(w.Keys), replay))
  {
    RunIsReplay(goal, w, replay, goal, StepDiffs(hist[c..]));
    TailFaithful(hist, c, goal);
  }

  lemma TwoSteps(data: Dict, i: Id, j: Id, replay: map<Id, Step>)
    ensures RunSteps(data, [i, j], replay) == RunStep(RunStep(data, i, replay), j, replay)
  {
    var one := RunStep(data, i, replay);
    assert [i, j][1..] == [j] && [j][1..] == [];
    assert RunSteps(one, [j], replay) == RunSteps(RunStep(one, j, replay), [], replay);
  }

  /** Two children of one base, merged in the company of older messages only. */
  ghost predicate Siblings(base: Message, hist: seq<Dict>, a: Message, b: Message, s: set<Message>, lag: int) {
    && Linear(base, hist) && Parsed(base, lag)
    && a == Child(base, a.data, a.id.hash, lag) && b == Child(base, b.data, b.id.hash, lag)
    && a.id.hash != b.id.hash
    && Mergeable(s, lag) && a in s && b in s && OnlyOlder(s, a, b, lag)
  }

  /**
   Concurrent edits: two children of one base with a linear history merge, at every
   depth, to the three-way merge of their data in which the greater (seqno, hash) wins
   the conflicts.
   */
  lemma ConcurrentEdits(base: Message, hist: seq<Dict>, a: Message, b: Message, s: set<Message>, lag: int)
    requires Siblings(base, hist, a, b, s, lag) && IdLess(b.id, a.id)
    ensures MergeSet(s, lag, true).Merged?
    ensures MergeSet(s, lag, true).seqno == base.id.seqno + 2
    ensures MergeSet(s, lag, true).data == Prune(ThreeWay(base.data, a.data, b.data))
  {
    PairSurvives(s, a, b, lag);
    ChildIsClean(base, hist, a, lag);
    ChildIsClean(base, hist, b, lag);
    PairMerges(s, a, b, lag);
    assert Parsed(a, lag);
    PairReplay(base, hist, a, b, lag);
  }

  /** Every change a message carries can be applied. */
  ghost predicate CleanMessage(m: Message) {
    Clean(m.diff) && forall i | i in m.lagged :: Clean(m.lagged[i])
  }

  /** Computed diffs are clean, so a line of them never breaks a merge. */
  lemma ChildIsClean(base: Message, hist: seq<Dict>, m: Message, lag: int)
    requires Linear(base, hist) && m == Child(base, m.data, m.id.hash, lag)
    ensures CleanMessage(m)
  {
    DiffClean(base.data, m.data);
    var ids := Ids(Carried(base).Keys);
    forall i | i in m.lagged ensures Clean(m.lagged[i]) {
      assert i in ids;
      var p :| 0 <= p < |ids| && ids[p] == i;
      StepDiffsAt(hist, p);
      DiffClean(hist[p], hist[p + 1]);
    }
  }

  lemma PairMerges(s: set<Message>, a: Message, b: Message, lag: int)
    requires Mergeable(s, lag) && s != {} && a != b && Survivors(s, lag) == {a, b} && CleanMessage(a) && CleanMessage(b)
    ensures IdsIdentify({a, b})
    ensures var r := MergeSet(s, lag, true);
      r.Merged? && r.seqno == MaxSeqno(s) + 1 && r.data == Prune(ReplayedData({a, b}))
  {
    assert a in {a, b} && b in {a, b};
    var g := Greatest(s);
    assert a in {g} && b in {g} ==> a == b;
    CleanMerges({a, b});
  }

  /**
   No lost concurrent edits: when the two sides do not conflict, the merge has both
   sides' changes whichever hash is greater; in particular every key that only one
   side changed has that side's value.
   */
  lemma NoLostEdits(base: Message, hist: seq<Dict>, a: Message, b: Message, s: set<Message>, lag: int)
    requires Siblings(base, hist, a, b, s, lag) && NoConflict(base.data, a.data, b.data)
    ensures MergeSet(s, lag, true).Merged?
    ensures MergeSet(s, lag, true).data == Prune(ThreeWay(base.data, a.data, b.data))
    ensures forall k | Get(b.data, k) == Get(base.data, k) :: Get(MergeSet(s, lag, true).data, k) == Get(a.data, k)
    ensures forall k | Get(a.data, k) == Get(base.data, k) :: Get(MergeSet(s, lag, true).data, k) == Get(b.data, k)
  {
    NoConflictNoOrder(base.data, a.data, b.data);
    IdTotal(a.id, b.id);
    if IdLess(b.id, a.id) {
      ConcurrentEdits(base, hist, a, b, s, lag);
    } else {
      SiblingsSwap(base, hist, a, b, s, lag);
      ConcurrentEdits(base, hist, b, a, s, lag);
    }
    var d := ThreeWay(base.data, a.data, b.data);
    forall k | Get(b.data, k) == Get(base.data, k) ensures Get(Prune(d), k) == Get(a.data, k) {
      OneSided(base.data, a.data, b.data, k);
    }
    forall k | Get(a.data, k) == Get(base.data, k) ensures Get(Prune(d), k) == Get(b.data, k) {
      ThreeWayLookup(base.data, a.data, b.data, k);
      PrunedSlot(d, b.data, k);
    }
  }

  /** Edits of disjoint top-level keys: every key ends with the value of the side that changed it. */
  lemma DisjointEdits(base: Message, hist: seq<Dict>, a: Message, b: Message, s: set<Message>, lag: int)
    requires Siblings(base, hist, a, b, s, lag)
    requires forall k :: Get(a.data, k) == Get(base.data, k) || Get(b.data, k) == Get(base.data, k)
    ensures MergeSet(s, lag, true).Merged?
    ensures forall k :: Get(MergeSet(s, lag, true).data, k)
                     == if Get(a.data, k) != Get(base.data, k) then Get(a.data, k) else Get(b.data, k)
  {
    assert forall k :: NoConflictAt(base.data, a.data, b.data, k);
    NoLostEdits(base, hist, a, b, s, lag);
  }

  lemma SiblingsSwap(base: Message, hist: seq<Dict>, a: Message, b: Message, s: set<Message>, lag: int)
    requires Siblings(base, hist, a, b, s, lag)
    ensures Siblings(base, hist, b, a, s, lag)
  {
  }

  lemma PrunedSlot(d: Dict, src: Dict, k: string)
    requires Get(d, k) == Get(src, k) && Pruned(src)
    ensures Get(Prune(d), k) == Get(src, k)
  {
    PruneLookup(d, k);
    assert k in src ==> PrunedValue(src[k]);
  }

  lemma OneSided(base: Dict, a: Dict, b: Dict, k: string)
    requires Pruned(a) && Get(b, k) == Get(base, k)
    ensures Get(Prune(ThreeWay(base, a, b)), k) == Get(a, k)
  {
    ThreeWayLookup(base, a, b, k);
    OneSlotSame(Get(base, k), Get(a, k));
    PrunedSlot(ThreeWay(base, a, b), a, k);
  }
}
