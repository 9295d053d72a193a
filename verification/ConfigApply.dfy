/**
 Applying a diff to data, taking new values from a source dict
 (src/config.cpp:354-426).
 */
module ConfigApply {
  import opened Options
  import opened Ordering
  import opened ConfigData
  import opened BtTree
  import opened ConfigDiff

  // ----- specification: one slot at a time ------------------------------------------

  /** The source holds a value of the kind the entry speaks of. */
  predicate Matches(e: Diff, src: Option<Value>) {
    && src.Some?
    && (e.Assign? || e.Delete? ==> src.value.ScalarV?)
    && (e.SetDiff? || e.Stray? ==> src.value.SetV?)
    && (e.DictDiff? ==> src.value.DictV?)
  }

  /**
   What an entry makes of a slot; a source that does not match erases the slot.  Applying a
   stray entry fails, which `Breaks` below says; the value here is only what was there.
   */
  function ApplySlot(x: Option<Value>, e: Diff, src: Option<Value>): Option<Value>
    decreases e, 2
  {
    if !Matches(e, src) then None else
      match e
      case Delete => None
      case Assign => src
      case DictDiff(m) => Some(DictV(Apply(AsDict(x), m, src.value.dict)))
      case SetDiff(a, r) => Some(SetV(AsSet(x) + a - r))
      case Stray(_) => Some(SetV(AsSet(x)))
  }

  function ApplyKey(data: Dict, df: Diffs, src: Dict, k: string): Option<Value>
    decreases DictDiff(df), 0
  {
    if k in df then ApplySlot(Get(data, k), df[k], Get(src, k)) else Get(data, k)
  }

  function Apply(data: Dict, df: Diffs, src: Dict): (r: Dict)
    ensures forall k :: k in r ==> k in data || k in df
    decreases DictDiff(df), 1
  {
    map k | k in data.Keys + df.Keys && ApplyKey(data, df, src, k).Some? :: ApplyKey(data, df, src, k).value
  }

  lemma ApplyLookup(data: Dict, df: Diffs, src: Dict, k: string)
    ensures Get(Apply(data, df, src), k) == ApplyKey(data, df, src, k)
  {
  }

  // ----- laws ---------------------------------------------------------------------

  /** Applying the diff of two dicts to the first, with the second as source, gives the second. */
  lemma {:induction false} ApplyExact(was: Dict, now: Dict)
    ensures Apply(was, DiffDicts(was, now), now) == now
    decreases was != map[], DictV(was), DictV(now)
  {
    var df := DiffDicts(was, now);
    forall k ensures Get(Apply(was, df, now), k) == Get(now, k) {
      ApplyLookup(was, df, now, k);
      SlotExact(was, now, k);
    }
    SameLookups(Apply(was, df, now), now);
  }

  lemma {:induction false} SlotExact(was: Dict, now: Dict, k: string)
    ensures ApplyKey(was, DiffDicts(was, now), now, k) == Get(now, k)
    decreases was != map[], DictV(was), DictV(now), 0
  {
    DiffLookup(was, now, k);
    var o, n := Get(was, k), Get(now, k);
    if o != n && n.Some? {
      if n.value.DictV? { ApplyExact(AsDict(o), n.value.dict); }
      if n.value.SetV? {
        var s, t := AsSet(o), n.value.elems;
        assert s + (t - s) - (s - t) == t;
      }
    }
  }

  /** Applying twice equals applying once. */
  lemma {:induction false} ApplyIdempotent(data: Dict, df: Diffs, src: Dict)
    ensures Apply(Apply(data, df, src), df, src) == Apply(data, df, src)
    decreases DictDiff(df), 0
  {
    var once := Apply(data, df, src);
    forall k ensures Get(Apply(once, df, src), k) == Get(once, k) {
      ApplyLookup(data, df, src, k);
      ApplyLookup(once, df, src, k);
      if k in df { SlotIdempotent(Get(data, k), df[k], Get(src, k)); }
    }
    SameLookups(Apply(once, df, src), once);
  }

  lemma {:induction false} SlotIdempotent(x: Option<Value>, e: Diff, src: Option<Value>)
    ensures ApplySlot(ApplySlot(x, e, src), e, src) == ApplySlot(x, e, src)
    decreases e, 1
  {
    if Matches(e, src) && e.DictDiff? { ApplyIdempotent(AsDict(x), e.entries, src.value.dict); }
    if Matches(e, src) && e.SetDiff? {
      var s, a, r := AsSet(x), e.added, e.removed;
      assert (s + a - r) + a - r == s + a - r;
    }
  }

  // ----- what happens at a path ------------------------------------------------------

  function At(d: Dict, path: seq<string>): Option<Value>
    requires path != []
    decreases |path|
  {
    if |path| == 1 then Get(d, path[0]) else At(AsDict(Get(d, path[0])), path[1..])
  }

  function SubDiff(e: Option<Diff>): Diffs {
    if e.Some? && e.value.DictDiff? then e.value.entries else map[]
  }

  /** The diff entry recorded for exactly this path, if any. */
  function EntryAt(df: Diffs, path: seq<string>): Option<Diff>
    requires path != []
    decreases |path|
  {
    if |path| == 1 then Get(df, path[0]) else EntryAt(SubDiff(Get(df, path[0])), path[1..])
  }

  /** Every entry above the path is a sub-dict entry for which the source holds a dict. */
  predicate Reached(df: Diffs, src: Dict, path: seq<string>)
    requires path != []
    decreases |path|
  {
    |path| == 1 || path[0] !in df ||
    (df[path[0]].DictDiff? && path[0] in src && src[path[0]].DictV?
     && Reached(df[path[0]].entries, src[path[0]].dict, path[1..]))
  }

  lemma {:induction false} AtEmpty(path: seq<string>)
    requires path != []
    ensures At(map[], path) == None && EntryAt(map[], path) == None
    decreases |path|
  {
    if |path| > 1 { AtEmpty(path[1..]); }
  }

  /**
   The effect of a diff at any depth.  A path that no entry names keeps its value, a
   path with an entry gets what the entry says, and below an entry that replaces or
   erases a container nothing is left.
   */
  lemma {:induction false} ApplyAtPath(data: Dict, df: Diffs, src: Dict, path: seq<string>)
    requires path != []
    ensures !Reached(df, src, path) ==> At(Apply(data, df, src), path) == None
    ensures Reached(df, src, path) && EntryAt(df, path).None? ==> At(Apply(data, df, src), path) == At(data, path)
    ensures Reached(df, src, path) && EntryAt(df, path).Some? ==>
              At(Apply(data, df, src), path) == ApplySlot(At(data, path), EntryAt(df, path).value, At(src, path))
    decreases |path|
  {
    var k := path[0];
    ApplyLookup(data, df, src, k);
    if |path| > 1 {
      AtEmpty(path[1..]);
      if k in df && df[k].DictDiff? && Matches(df[k], Get(src, k)) {
        ApplyAtPath(AsDict(Get(data, k)), df[k].entries, src[k].dict, path[1..]);
      }
    }
  }

  /**
   What an entry does, by its kind and the kind of the source value, at any depth.  An
   assignment takes the source's scalar, a set change updates the members, a dict change
   leaves a dict; a deletion, and every entry whose source is of another kind or gone, leaves
   nothing, whatever the data held.
   */
  lemma ApplyByKind(data: Dict, df: Diffs, src: Dict, path: seq<string>)
    requires path != [] && Reached(df, src, path) && EntryAt(df, path).Some?
    ensures var v, x, r := At(src, path), At(data, path), At(Apply(data, df, src), path);
            match EntryAt(df, path).value
            case Delete => r == None
            case Assign => r == if v.Some? && v.value.ScalarV? then v else None
            case SetDiff(a, d) =>
              if v.Some? && v.value.SetV? then
                r == Some(SetV((if x.Some? && x.value.SetV? then x.value.elems else {}) + a - d))
              else r == None
            case Stray(_) => (v.Some? && v.value.SetV?) || r == None
            case DictDiff(_) => if v.Some? && v.value.DictV? then r.Some? && r.value.DictV? else r == None
  {
    ApplyAtPath(data, df, src, path);
  }

  /** A set member ends up present exactly when it was present or added, and is not removed. */
  lemma SetMemberLaw(data: Dict, df: Diffs, src: Dict, path: seq<string>, x: Scalar)
    requires path != [] && Reached(df, src, path)
    requires EntryAt(df, path).Some? && EntryAt(df, path).value.SetDiff?
    requires At(src, path).Some? && At(src, path).value.SetV?
    ensures x in AsSet(At(Apply(data, df, src), path)) <==>
            (x in AsSet(At(data, path)) || x in EntryAt(df, path).value.added)
            && x !in EntryAt(df, path).value.removed
  {
    ApplyAtPath(data, df, src, path);
  }

  // ----- when applying fails ------------------------------------------------------------

  /** Applying the diff throws: a stray set change meets a set in the source.  The data has no say. */
  predicate Breaks(df: Diffs, src: Dict)
    decreases DictDiff(df), 0
  {
    exists k :: k in df && BreaksEntry(df[k], Get(src, k))
  }

  predicate BreaksEntry(e: Diff, src: Option<Value>)
    decreases e, 1
  {
    src.Some? && ((e.Stray? && src.value.SetV?) || (e.DictDiff? && src.value.DictV? && Breaks(e.entries, src.value.dict)))
  }

  /** At this path the application reaches a stray set change and the source holds a set. */
  predicate BreaksAt(df: Diffs, src: Dict, path: seq<string>)
    requires path != []
  {
    && Reached(df, src, path)
    && EntryAt(df, path).Some? && EntryAt(df, path).value.Stray?
    && At(src, path).Some? && At(src, path).value.SetV?
  }

  ghost predicate BreaksSomewhere(df: Diffs, src: Dict) {
    exists path: seq<string> :: path != [] && BreaksAt(df, src, path)
  }

  /** Applying fails exactly when it fails at some path. */
  lemma BreaksIff(df: Diffs, src: Dict)
    ensures Breaks(df, src) <==> BreaksSomewhere(df, src)
  {
    if Breaks(df, src) { var path := BreakingPath(df, src); }
    if path: seq<string> :| path != [] && BreaksAt(df, src, path) { PathBreaks(df, src, path); }
  }

  lemma {:induction false} BreakingPath(df: Diffs, src: Dict) returns (path: seq<string>)
    requires Breaks(df, src)
    ensures path != [] && BreaksAt(df, src, path)
    decreases DictDiff(df)
  {
    var k :| k in df && BreaksEntry(df[k], Get(src, k));
    path := [k];
    if df[k].DictDiff? {
      var rest := BreakingPath(df[k].entries, src[k].dict);
      path := [k] + rest;
      assert path[1..] == rest;
    }
  }

  lemma {:induction false} PathBreaks(df: Diffs, src: Dict, path: seq<string>)
    requires path != [] && BreaksAt(df, src, path)
    ensures Breaks(df, src)
    decreases |path|
  {
    var k := path[0];
    if |path| > 1 {
      AtEmpty(path[1..]);
      PathBreaks(df[k].entries, src[k].dict, path[1..]);
    }
    assert BreaksEntry(df[k], Get(src, k));
  }

  /** A clean diff can always be applied. */
  lemma {:induction false} CleanNeverBreaks(df: Diffs, src: Dict)
    requires Clean(df)
    ensures !Breaks(df, src)
    decreases DictDiff(df)
  {
    if k :| k in df && BreaksEntry(df[k], Get(src, k)) {
      assert CleanEntry(df[k]);
      CleanNeverBreaks(df[k].entries, src[k].dict);
    }
  }

  // ----- the in-place loop ------------------------------------------------------------

  ghost function Part(df: Diffs, done: set<string>): Diffs {
    map k | k in df && k in done :: df[k]
  }

  ghost function ApplyOn(data: Dict, df: Diffs, src: Dict, done: set<string>): Dict {
    Apply(data, Part(df, done), src)
  }

  lemma ApplyOnStep(data: Dict, df: Diffs, src: Dict, done: set<string>, k: string)
    requires k in df && k !in done
    ensures Get(ApplyOn(data, df, src, done), k) == Get(data, k)
    ensures ApplyOn(data, df, src, done + {k}) ==
            Put(ApplyOn(data, df, src, done), k, ApplySlot(Get(data, k), df[k], Get(src, k)))
  {
    var part, next := Part(df, done), Part(df, done + {k});
    var want := Put(Apply(data, part, src), k, ApplySlot(Get(data, k), df[k], Get(src, k)));
    ApplyLookup(data, part, src, k);
    forall l ensures Get(Apply(data, next, src), l) == Get(want, l) {
      ApplyLookup(data, part, src, l);
      ApplyLookup(data, next, src, l);
      assert l != k ==> Get(next, l) == Get(part, l);
    }
    SameLookups(Apply(data, next, src), want);
  }

  lemma ApplyOnEnds(data: Dict, df: Diffs, src: Dict)
    ensures ApplyOn(data, df, src, {}) == data && ApplyOn(data, df, src, df.Keys) == Apply(data, df, src)
  {
    assert Part(df, df.Keys) == df;
    var none := Part(df, {});
    assert none == map[];
    forall k ensures Get(Apply(data, none, src), k) == Get(data, k) { ApplyLookup(data, none, src, k); }
    SameLookups(Apply(data, none, src), data);
  }

  /** The loop over the diff; it fails when an entry does. */
  method ApplyInPlace(data: Dict, df: Diffs, src: Dict) returns (r: Result<Dict>)
    ensures r == if Breaks(df, src) then Err else Ok(Apply(data, df, src))
    decreases DictDiff(df), 0
  {
    var d := data;
    var keys := Keys(df.Keys);
    ghost var done: set<string> := {};
    ApplyOnEnds(data, df, src);
    for i := 0 to |keys|
      invariant done <= df.Keys && Visited(keys, i, done)
      invariant d == ApplyOn(data, df, src, done)
      invariant forall k | k in done :: !BreaksEntry(df[k], Get(src, k))
    {
      var k := keys[i];
      VisitNext(keys, i, done);
      ApplyOnStep(data, df, src, done, k);
      var v := UpdateSlot(Get(d, k), df[k], Get(src, k));
      if v.Err? { return Err; }
      d := Put(d, k, v.value);
      done := done + {k};
    }
    AllVisited(keys, done, df.Keys);
    r := Ok(d);
  }

  /** The body of the loop, on the slot `data[k]`. */
  method UpdateSlot(x: Option<Value>, e: Diff, src: Option<Value>) returns (r: Result<Option<Value>>)
    ensures r == if BreaksEntry(e, src) then Err else Ok(ApplySlot(x, e, src))
    decreases e, 1
  {
    if !Matches(e, src) { return Ok(None); }
    match e {
      case Delete => r := Ok(None);
      case Assign => r := Ok(Some(ScalarV(src.value.scalar)));
      case DictDiff(m) =>
        var sub := if x.Some? && x.value.DictV? then x.value.dict else map[];
        var applied := ApplyInPlace(sub, m, src.value.dict);
        r := if applied.Ok? then Ok(Some(DictV(applied.value))) else Err;
      case SetDiff(a, d) =>
        SetRoundTrip([], a);
        SetRoundTrip([], d);
        r := UpdateSet(x, WriteSet(a), WriteSet(d));
      case Stray(items) =>
        r := UpdateSet(x, items[0].items, items[1].items);
    }
  }

  method UpdateSet(x: Option<Value>, added: seq<Bt>, removed: seq<Bt>) returns (r: Result<Option<Value>>)
    ensures r == if AllScalars(added) && AllScalars(removed)
                 then Ok(Some(SetV(AsSet(x) + MembersOf(added) - MembersOf(removed)))) else Err
  {
    var subset := if x.Some? && x.value.SetV? then x.value.elems else {};
    var s := InsertThenErase(subset, added, removed);
    r := if s.Ok? then Ok(Some(SetV(s.value))) else Err;
  }

  /** Inserts the added elements, then erases the removed ones; an element that is no scalar stops it. */
  method InsertThenErase(s: set<Scalar>, added: seq<Bt>, removed: seq<Bt>) returns (r: Result<set<Scalar>>)
    ensures r == if AllScalars(added) && AllScalars(removed)
                 then Ok(s + MembersOf(added) - MembersOf(removed)) else Err
  {
    var t := s;
    for i := 0 to |added|
      invariant AllScalars(added[..i]) && t == s + MembersOf(added[..i])
    {
      AddMember(added, i);
      if !IsScalar(added[i]) { return Err; }
      t := t + {ReadScalar(added[i])};
    }
    assert added[..|added|] == added;
    for i := 0 to |removed|
      invariant AllScalars(removed[..i]) && t == s + MembersOf(added) - MembersOf(removed[..i])
    {
      AddMember(removed, i);
      if !IsScalar(removed[i]) { return Err; }
      t := t - {ReadScalar(removed[i])};
    }
    assert removed[..|removed|] == removed;
    r := Ok(t);
  }
}
