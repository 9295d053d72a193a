/**
 The diff of two dicts (src/config.cpp:56-154).  An entry says where a change
 happened and, for sets, what it was; the new scalar values are not part of it.
 */
module ConfigDiff {
  import opened Options
  import opened Ordering
  import opened ConfigData
  import opened BtTree

  /**
   `Stray` is a set change that the loader accepts but that cannot be applied; a diff that
   was computed never has one.
   */
  datatype Diff =
    | Assign                                               // ""
    | Delete                                               // "-"
    | SetDiff(added: set<Scalar>, removed: set<Scalar>)    // [[added...], [removed...]]
    | Stray(items: StrayChange)                            // [[[...]], [...]] and the like
    | DictDiff(entries: Diffs)                             // {...}

  type Diffs = map<string, Diff>

  // ----- specification: one key at a time -------------------------------------------

  /** The keys whose slots differ, each with the entry for its two slots. */
  function DiffDicts(was: Dict, now: Dict): (r: Diffs)
    ensures forall k :: k in r <==> Get(was, k) != Get(now, k)
    decreases was != map[], DictV(was), DictV(now), 0
  {
    map k | k in was.Keys + now.Keys && Get(was, k) != Get(now, k) :: DiffSlot(Get(was, k), Get(now, k))
  }

  /** The entry for a slot that held `o` and holds `n`. */
  function DiffSlot(o: Option<Value>, n: Option<Value>): Diff
    requires o != n
    decreases o.Some?, Content(o), Content(n), 1
  {
    match n
    case Some(ScalarV(_)) => Assign
    case Some(SetV(s)) => SetDiff(s - AsSet(o), AsSet(o) - s)
    case Some(DictV(d)) => DictDiff(DiffDicts(AsDict(o), d))
    case None =>
      match o.value
      case ScalarV(_) => Delete
      case SetV(s) => SetDiff({}, s)
      case DictV(d) => DictDiff(DiffDicts(d, map[]))
  }

  function Content(x: Option<Value>): Value {
    if x.Some? then x.value else DictV(map[])
  }

  lemma DiffLookup(was: Dict, now: Dict, k: string)
    ensures Get(DiffDicts(was, now), k) ==
            if Get(was, k) == Get(now, k) then None else Some(DiffSlot(Get(was, k), Get(now, k)))
  {
  }

  /** A diff that records only real changes: no empty part, nothing both added and removed. */
  predicate Effective(df: Diffs)
    decreases DictDiff(df), 0
  {
    forall k | k in df :: EffectiveEntry(df[k])
  }

  predicate EffectiveEntry(e: Diff)
    decreases e, 1
  {
    match e
    case Assign => true
    case Delete => true
    case SetDiff(a, r) => a + r != {} && a !! r
    case Stray(_) => false
    case DictDiff(m) => m != map[] && Effective(m)
  }

  /** The diff is empty exactly when nothing changed. */
  lemma DiffEmptyIffEqual(was: Dict, now: Dict)
    ensures DiffDicts(was, now) == map[] <==> was == now
  {
    if DiffDicts(was, now) == map[] {
      forall k ensures Get(was, k) == Get(now, k) { assert k !in DiffDicts(was, now); }
      SameLookups(was, now);
    }
  }

  lemma DistinctSetsDiffer(s: set<Scalar>, t: set<Scalar>)
    requires s != t
    ensures (s - t) + (t - s) != {}
  {
    var x :| x in s <==> x !in t;
    assert x in (s - t) + (t - s);
  }

  /** The diff of pruned dicts has no empty part at any depth. */
  lemma {:induction false} DiffEffective(was: Dict, now: Dict)
    requires Pruned(was) && Pruned(now)
    ensures Effective(DiffDicts(was, now))
    decreases was != map[], DictV(was), DictV(now)
  {
    forall k | k in DiffDicts(was, now) ensures EffectiveEntry(DiffDicts(was, now)[k]) {
      var o, n := Get(was, k), Get(now, k);
      assert DiffDicts(was, now)[k] == DiffSlot(o, n);
      assert o.Some? ==> PrunedValue(o.value);
      assert n.Some? ==> PrunedValue(n.value);
      if n.Some? && n.value.DictV? {
        DiffEffective(AsDict(o), n.value.dict);
        DiffEmptyIffEqual(AsDict(o), n.value.dict);
      } else if n.Some? && n.value.SetV? {
        DistinctSetsDiffer(n.value.elems, AsSet(o));
      } else if n.None? && o.value.DictV? {
        DiffEffective(o.value.dict, map[]);
        DiffEmptyIffEqual(o.value.dict, map[]);
      }
    }
  }

  /** Every set change of the diff can be applied, at every depth. */
  predicate Clean(df: Diffs)
    decreases DictDiff(df), 0
  {
    forall k | k in df :: CleanEntry(df[k])
  }

  predicate CleanEntry(e: Diff)
    decreases e, 1
  {
    !e.Stray? && (e.DictDiff? ==> Clean(e.entries))
  }

  lemma {:induction false} DiffClean(was: Dict, now: Dict)
    ensures Clean(DiffDicts(was, now))
    decreases was != map[], DictV(was), DictV(now)
  {
    forall k | k in DiffDicts(was, now) ensures CleanEntry(DiffDicts(was, now)[k]) {
      var o, n := Get(was, k), Get(now, k);
      if n.Some? && n.value.DictV? {
        DiffClean(AsDict(o), n.value.dict);
      } else if n.None? && o.value.DictV? {
        DiffClean(o.value.dict, map[]);
      }
    }
  }

  // ----- the two-iterator walks ------------------------------------------------------

  /** The changes found so far: the visited elements of `n` that are not in `other`. */
  ghost predicate Found(found: seq<Scalar>, n: seq<Scalar>, j: nat, other: set<Scalar>) {
    j <= |n| && Sorted(found, ScalarLess) && forall x :: x in found <==> x in n[..j] && x !in other
  }

  lemma FoundOne(found: seq<Scalar>, n: seq<Scalar>, j: nat, o: seq<Scalar>, i: nat, other: set<Scalar>)
    requires Sorted(n, ScalarLess) && Sorted(o, ScalarLess) && InStep(n, j, o, i, ScalarLess)
    requires Found(found, n, j, other) && (forall x :: x in o <==> x in other)
    requires j < |n| && (i == |o| || ScalarLess(n[j], o[i]))
    ensures Found(found + [n[j]], n, j + 1, other) && InStep(n, j + 1, o, i, ScalarLess)
    ensures InStep(o, i, n, j + 1, ScalarLess)
  {
    ScalarOrder();
    StepSmaller(n, j, o, i, ScalarLess);
    InStepSwap(n, j + 1, o, i, ScalarLess);
    SortedAppend(found, n[j], ScalarLess);
    assert n[..j + 1] == n[..j] + [n[j]];
  }

  lemma FoundNone(found: seq<Scalar>, n: seq<Scalar>, j: nat, other: set<Scalar>)
    requires Found(found, n, j, other) && j < |n| && n[j] in other
    ensures Found(found, n, j + 1, other)
  {
    assert n[..j + 1] == n[..j] + [n[j]];
  }

  lemma EqualHeads(o: seq<Scalar>, i: nat, n: seq<Scalar>, j: nat)
    requires Sorted(n, ScalarLess) && Sorted(o, ScalarLess) && InStep(o, i, n, j, ScalarLess)
    requires i < |o| && j < |n| && !ScalarLess(n[j], o[i]) && !ScalarLess(o[i], n[j])
    ensures o[i] == n[j] && o[i] in o && n[j] in n && InStep(o, i + 1, n, j + 1, ScalarLess)
  {
    ScalarOrder();
    StepBoth(o, i, n, j, ScalarLess);
  }

  lemma FoundAll(found: seq<Scalar>, now: set<Scalar>, other: set<Scalar>)
    requires Found(found, Scalars(now), |Scalars(now)|, other)
    ensures found == Scalars(now - other) && (found == [] <==> now <= other)
  {
    ScalarOrder();
    var n := Scalars(now);
    assert n[..|n|] == n;
    SortedUnique(found, Scalars(now - other), ScalarLess);
    assert found == [] <==> forall x :: x !in found;
  }

  /** The set walk: none when the sets are equal, else the two sorted lists of changes. */
  method DiffSetsWalk(was: set<Scalar>, now: set<Scalar>) returns (r: Option<(seq<Scalar>, seq<Scalar>)>)
    ensures r == if was == now then None else Some((Scalars(now - was), Scalars(was - now)))
  {
    var o, n := Scalars(was), Scalars(now);
    var added: seq<Scalar>, removed: seq<Scalar> := [], [];
    var i, j := 0, 0;
    while i < |o| || j < |n|
      invariant InStep(o, i, n, j, ScalarLess)
      invariant Found(added, n, j, was) && Found(removed, o, i, now)
      decreases |o| - i + |n| - j
    {
      if i == |o| || (j < |n| && ScalarLess(n[j], o[i])) {
        InStepSwap(o, i, n, j, ScalarLess);
        FoundOne(added, n, j, o, i, was);
        added := added + [n[j]];
        j := j + 1;
      } else if j == |n| || (i < |o| && ScalarLess(o[i], n[j])) {
        FoundOne(removed, o, i, n, j, now);
        removed := removed + [o[i]];
        i := i + 1;
      } else {
        EqualHeads(o, i, n, j);
        FoundNone(added, n, j, was);
        FoundNone(removed, o, i, now);
        i, j := i + 1, j + 1;
      }
    }
    FoundAll(added, now, was);
    FoundAll(removed, was, now);
    if |added| == 0 && |removed| == 0 { return None; }
    r := Some((added, removed));
  }

  function FromLists(lists: (seq<Scalar>, seq<Scalar>)): Diff {
    SetDiff(set x | x in lists.0, set x | x in lists.1)
  }

  lemma FromSortedLists(added: set<Scalar>, removed: set<Scalar>)
    ensures FromLists((Scalars(added), Scalars(removed))) == SetDiff(added, removed)
  {
  }

  method NewEntry(v: Value) returns (e: Diff)
    requires PrunedValue(v)
    ensures e == DiffSlot(None, Some(v))
    decreases false, DictV(map[]), v, 2
  {
    match v {
      case DictV(d) => var sub := DiffDictsWalk(map[], d); e := DictDiff(sub.value);
      case SetV(s) =>
        var sub := DiffSetsWalk({}, s);
        FromSortedLists(s - {}, {} - s);
        e := FromLists(sub.value);
      case ScalarV(_) => e := Assign;
    }
  }

  method GoneEntry(v: Value) returns (e: Diff)
    requires PrunedValue(v)
    ensures e == DiffSlot(Some(v), None)
    decreases true, v, DictV(map[]), 2
  {
    match v {
      case DictV(d) => var sub := DiffDictsWalk(d, map[]); e := DictDiff(sub.value);
      case SetV(s) =>
        var sub := DiffSetsWalk(s, {});
        FromSortedLists({} - s, s - {});
        assert {} - s == {} && s - {} == s;
        e := FromLists(sub.value);
      case ScalarV(_) => e := Delete;
    }
  }

  predicate SameKind(o: Value, n: Value) {
    o.ScalarV? == n.ScalarV? && o.SetV? == n.SetV?
  }

  method ChangedEntry(o: Value, n: Value) returns (e: Option<Diff>)
    requires PrunedValue(o) && PrunedValue(n) && SameKind(o, n)
    ensures e == if o == n then None else Some(DiffSlot(Some(o), Some(n)))
    decreases true, o, n, 2
  {
    match o {
      case ScalarV(x) => e := if x != n.scalar then Some(Assign) else None;
      case DictV(d) =>
        var sub := DiffDictsWalk(d, n.dict);
        e := if sub.Some? then Some(DictDiff(sub.value)) else None;
      case SetV(s) =>
        var sub := DiffSetsWalk(s, n.elems);
        FromSortedLists(n.elems - s, s - n.elems);
        e := if sub.Some? then Some(FromLists(sub.value)) else None;
    }
  }

  /** The diff restricted to the keys already visited. */
  ghost function DiffOn(was: Dict, now: Dict, done: set<string>): Diffs {
    map k | k in DiffDicts(was, now) && k in done :: DiffDicts(was, now)[k]
  }

  lemma DiffOnStep(was: Dict, now: Dict, done: set<string>, k: string)
    ensures DiffOn(was, now, done + {k}) ==
            if Get(was, k) == Get(now, k) then DiffOn(was, now, done)
            else DiffOn(was, now, done)[k := DiffSlot(Get(was, k), Get(now, k))]
  {
    DiffLookup(was, now, k);
  }

  lemma DiffOnEnds(was: Dict, now: Dict)
    ensures DiffOn(was, now, {}) == map[]
    ensures DiffOn(was, now, was.Keys + now.Keys) == DiffDicts(was, now)
  {
  }

  /**
   A value that changes kind leaves the same entry as a brand-new one: what it held
   before does not show in the diff.
   */
  lemma KindChangeLooksNew(o: Value, n: Value)
    requires !SameKind(o, n) && PrunedValue(n)
    ensures DiffSlot(Some(o), Some(n)) == DiffSlot(None, Some(n))
  {
  }

  ghost predicate Walking(was: Dict, now: Dict, o: seq<string>, i: nat, n: seq<string>, j: nat,
                          df: Diffs, done: set<string>)
  {
    Cursors(o, i, n, j, done, StrLess) && done <= was.Keys + now.Keys && df == DiffOn(was, now, done)
  }

  lemma WalkStarts(was: Dict, now: Dict)
    ensures Walking(was, now, Keys(was.Keys), 0, Keys(now.Keys), 0, map[], {})
  {
    DiffOnEnds(was, now);
  }

  lemma WalkEnds(was: Dict, now: Dict, df: Diffs, done: set<string>)
    requires Walking(was, now, Keys(was.Keys), |Keys(was.Keys)|, Keys(now.Keys), |Keys(now.Keys)|, df, done)
    ensures df == DiffDicts(was, now) && (df == map[] <==> was == now)
  {
    var o, n := Keys(was.Keys), Keys(now.Keys);
    assert forall k | k in was.Keys :: k in o;
    assert forall k | k in now.Keys :: k in n;
    assert done == was.Keys + now.Keys;
    DiffOnEnds(was, now);
    DiffEmptyIffEqual(was, now);
  }

  /**
   The dict walk.  Removed, new and changed sub-containers are diffed recursively and
   the result dereferenced, which is why both dicts must be pruned.
   */
  method DiffDictsWalk(was: Dict, now: Dict) returns (r: Option<Diffs>)
    requires Pruned(was) && Pruned(now)
    ensures r == if was == now then None else Some(DiffDicts(was, now))
    decreases was != map[], DictV(was), DictV(now), 1
  {
    var o, n := Keys(was.Keys), Keys(now.Keys);
    var df: Diffs, i, j := map[], 0, 0;
    ghost var done: set<string> := {};
    WalkStarts(was, now);
    while i < |o| || j < |n|
      invariant Walking(was, now, o, i, n, j, df, done)
      decreases |o| - i + |n| - j
    {
      var turn := CompareHeads(o, i, n, j);
      match turn
      case Second =>
        df := WalkNew(was, now, i, j, df, done);
        done, j := done + {n[j]}, j + 1;
      case First =>
        df := WalkOld(was, now, i, j, df, done);
        done, i := done + {o[i]}, i + 1;
      case Both =>
        df := WalkBoth(was, now, i, j, df, done);
        done, i, j := done + {n[j]}, i + 1, j + 1;
    }
    WalkEnds(was, now, df, done);
    r := if df == map[] then None else Some(df);
  }

  method WalkNew(was: Dict, now: Dict, i: nat, j: nat, df: Diffs, ghost done: set<string>)
    returns (r: Diffs)
    requires Pruned(was) && Pruned(now) && Walking(was, now, Keys(was.Keys), i, Keys(now.Keys), j, df, done)
    requires IsTurn(Second, Keys(was.Keys), i, Keys(now.Keys), j, StrLess)
    ensures Walking(was, now, Keys(was.Keys), i, Keys(now.Keys), j + 1, r, done + {Keys(now.Keys)[j]})
    decreases was != map[], DictV(was), DictV(now), 0
  {
    var k := Keys(now.Keys)[j];
    NewFirst(was, now, i, j, df, done);
    var e := NewEntry(now[k]);
    r := df[k := e];
  }

  method WalkOld(was: Dict, now: Dict, i: nat, j: nat, df: Diffs, ghost done: set<string>)
    returns (r: Diffs)
    requires Pruned(was) && Pruned(now) && Walking(was, now, Keys(was.Keys), i, Keys(now.Keys), j, df, done)
    requires IsTurn(First, Keys(was.Keys), i, Keys(now.Keys), j, StrLess)
    ensures Walking(was, now, Keys(was.Keys), i + 1, Keys(now.Keys), j, r, done + {Keys(was.Keys)[i]})
    decreases was != map[], DictV(was), DictV(now), 0
  {
    var k := Keys(was.Keys)[i];
    OldFirst(was, now, i, j, df, done);
    var e := GoneEntry(was[k]);
    r := df[k := e];
  }

  method WalkBoth(was: Dict, now: Dict, i: nat, j: nat, df: Diffs, ghost done: set<string>)
    returns (r: Diffs)
    requires Pruned(was) && Pruned(now) && Walking(was, now, Keys(was.Keys), i, Keys(now.Keys), j, df, done)
    requires IsTurn(Both, Keys(was.Keys), i, Keys(now.Keys), j, StrLess)
    ensures Walking(was, now, Keys(was.Keys), i + 1, Keys(now.Keys), j + 1, r, done + {Keys(now.Keys)[j]})
    decreases was != map[], DictV(was), DictV(now), 0
  {
    var k := Keys(now.Keys)[j];
    Together(was, now, i, j, df, done);
    var e := BothEntry(was[k], now[k]);
    r := if e.Some? then df[k := e.value] else df;
  }

  /** The entry for a key of both dicts; a change of kind is treated as a new value. */
  method BothEntry(o: Value, n: Value) returns (e: Option<Diff>)
    requires PrunedValue(o) && PrunedValue(n)
    ensures e == if o == n then None else Some(DiffSlot(Some(o), Some(n)))
    decreases true, o, n, 3
  {
    if !SameKind(o, n) {
      KindChangeLooksNew(o, n);
      var new_ := NewEntry(n);
      e := Some(new_);
    } else {
      e := ChangedEntry(o, n);
    }
  }

  lemma NewFirst(was: Dict, now: Dict, i: nat, j: nat, df: Diffs, done: set<string>)
    requires Walking(was, now, Keys(was.Keys), i, Keys(now.Keys), j, df, done)
    requires IsTurn(Second, Keys(was.Keys), i, Keys(now.Keys), j, StrLess)
    ensures var k := Keys(now.Keys)[j];
            && k in now && k !in was
            && Walking(was, now, Keys(was.Keys), i, Keys(now.Keys), j + 1,
                       df[k := DiffSlot(None, Some(now[k]))], done + {k})
  {
    var o, n := Keys(was.Keys), Keys(now.Keys);
    assert n[j] in n && n[j] !in o && Cursors(o, i, n, j + 1, done + {n[j]}, StrLess) by {
      StrOrder();
      CursorsSecond(o, i, n, j, done, StrLess);
    }
    DiffOnStep(was, now, done, n[j]);
  }

  lemma OldFirst(was: Dict, now: Dict, i: nat, j: nat, df: Diffs, done: set<string>)
    requires Walking(was, now, Keys(was.Keys), i, Keys(now.Keys), j, df, done)
    requires IsTurn(First, Keys(was.Keys), i, Keys(now.Keys), j, StrLess)
    ensures var k := Keys(was.Keys)[i];
            && k in was && k !in now
            && Walking(was, now, Keys(was.Keys), i + 1, Keys(now.Keys), j,
                       df[k := DiffSlot(Some(was[k]), None)], done + {k})
  {
    var o, n := Keys(was.Keys), Keys(now.Keys);
    assert o[i] in o && o[i] !in n && Cursors(o, i + 1, n, j, done + {o[i]}, StrLess) by {
      StrOrder();
      CursorsFirst(o, i, n, j, done, StrLess);
    }
    DiffOnStep(was, now, done, o[i]);
  }

  lemma Together(was: Dict, now: Dict, i: nat, j: nat, df: Diffs, done: set<string>)
    requires Walking(was, now, Keys(was.Keys), i, Keys(now.Keys), j, df, done)
    requires IsTurn(Both, Keys(was.Keys), i, Keys(now.Keys), j, StrLess)
    ensures var k := Keys(now.Keys)[j];
            && Keys(was.Keys)[i] == k && k in was && k in now
            && Walking(was, now, Keys(was.Keys), i + 1, Keys(now.Keys), j + 1,
                       if was[k] == now[k] then df else df[k := DiffSlot(Some(was[k]), Some(now[k]))], done + {k})
  {
    var o, n := Keys(was.Keys), Keys(now.Keys);
    assert o[i] in o && o[i] == n[j] && n[j] in n && Cursors(o, i + 1, n, j + 1, done + {o[i]}, StrLess) by {
      StrOrder();
      CursorsBoth(o, i, n, j, done, StrLess);
    }
    DiffOnStep(was, now, done, n[j]);
  }
}
