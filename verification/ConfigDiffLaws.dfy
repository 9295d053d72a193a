/**
 What a diff records, and what that does to other data, at every depth
 (src/config.cpp:88-154, 356-426).
 */
module ConfigDiffLaws {
  import opened Options
  import opened ConfigData
  import opened ConfigDiff
  import opened ConfigApply

  /**
   The diff looks inside every container above the path: it is a dict now, or it was one and is
   gone.  A container that became a scalar or a set is not looked into.
   */
  predicate Descends(was: Dict, now: Dict, path: seq<string>)
    requires path != []
    decreases |path|
  {
    |path| == 1 ||
    (var k := path[0];
     && (if k in now then now[k].DictV? else k in was && was[k].DictV?)
     && Descends(AsDict(Get(was, k)), AsDict(Get(now, k)), path[1..]))
  }

  /**
   The entry for a path, by what was and what is there.  Nothing is recorded where nothing
   changed and inside containers that are not looked into; a new or changed scalar is an
   assignment and a removed one a deletion; of a set exactly the members gained and lost are
   recorded, all of them lost when it is removed; a dict that is there or was removed has an
   entry of its own.
   */
  lemma {:induction false} DiffAtPath(was: Dict, now: Dict, path: seq<string>)
    requires path != []
    ensures var o, n, e := At(was, path), At(now, path), EntryAt(DiffDicts(was, now), path);
            if !Descends(was, now, path) || o == n then e == None
            else
              match n
              case Some(ScalarV(_)) => e == Some(Assign)
              case Some(SetV(s)) => e == Some(SetDiff(s - AsSet(o), AsSet(o) - s))
              case Some(DictV(_)) => e.Some? && e.value.DictDiff?
              case None =>
                match o.value
                case ScalarV(_) => e == Some(Delete)
                case SetV(s) => e == Some(SetDiff({}, s))
                case DictV(_) => e.Some? && e.value.DictDiff?
    decreases |path|
  {
    var k := path[0];
    DiffLookup(was, now, k);
    if |path| > 1 {
      var o, n, rest := Get(was, k), Get(now, k), path[1..];
      AtEmpty(rest);
      if o == n {
        SameAtPath(AsDict(o), AsDict(n), rest);
      } else {
        DiffAtPath(AsDict(o), AsDict(n), rest);
      }
    }
  }

  lemma SameAtPath(a: Dict, b: Dict, path: seq<string>)
    requires path != [] && a == b
    ensures At(a, path) == At(b, path)
  {
  }

  /**
   Replaying a removal: at a path where nothing is left, at any depth, the diff deletes what was
   a scalar, takes exactly the old members out of what was a set, keeps a dict where a dict was,
   and leaves everything else alone; what the source has another kind for is erased.
   */
  lemma RemovedAtPath(was: Dict, now: Dict, data: Dict, src: Dict, path: seq<string>)
    requires path != [] && Descends(was, now, path) && At(now, path) == None
    requires Reached(DiffDicts(was, now), src, path)
    ensures var v, x, r := At(src, path), At(data, path), At(Apply(data, DiffDicts(was, now), src), path);
            match At(was, path)
            case None => r == x
            case Some(ScalarV(_)) => r == None
            case Some(SetV(s)) => r == if v.Some? && v.value.SetV? then Some(SetV(AsSet(x) - s)) else None
            case Some(DictV(_)) => if v.Some? && v.value.DictV? then r.Some? && r.value.DictV? else r == None
  {
    var df := DiffDicts(was, now);
    DiffAtPath(was, now, path);
    ApplyAtPath(data, df, src, path);
    if EntryAt(df, path).Some? {
      ApplyByKind(data, df, src, path);
      if At(was, path).value.SetV? {
        var s, y := At(was, path).value.elems, AsSet(At(data, path));
        assert y + {} - s == y - s;
      }
    }
  }

  /** The same at a top-level key. */
  lemma RemovedKey(was: Dict, now: Dict, data: Dict, src: Dict, k: string)
    requires k in was && k !in now
    ensures was[k].ScalarV? ==> Get(DiffDicts(was, now), k) == Some(Delete)
    ensures was[k].SetV? && k in src && src[k].SetV? ==>
              Get(Apply(data, DiffDicts(was, now), src), k) == Some(SetV(AsSet(Get(data, k)) - was[k].elems))
  {
    DiffAtPath(was, now, [k]);
    RemovedAtPath(was, now, data, src, [k]);
  }
}
