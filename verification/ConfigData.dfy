/**
 The data of a config message (include/session/config.hpp:33-43) and its pruning
 (src/config.cpp:27-54).
 */
module ConfigData {
  import opened Options
  import opened Ordering

  datatype Scalar = Int(i: int) | Str(s: string)

  datatype Value =
    | ScalarV(scalar: Scalar)
    | SetV(elems: set<Scalar>)
    | DictV(dict: Dict)

  type Dict = map<string, Value>

  /** The order of `std::variant<int64_t, std::string>`: every int before every string. */
  predicate ScalarLess(a: Scalar, b: Scalar) {
    match (a, b)
    case (Int(i), Int(j)) => i < j
    case (Int(_), Str(_)) => true
    case (Str(_), Int(_)) => false
    case (Str(s), Str(t)) => StrLess(s, t)
  }

  lemma ScalarOrder()
    ensures StrictTotal(ScalarLess)
  {
    forall a ensures !ScalarLess(a, a) {
      if a.Str? { StrIrreflexive(a.s); }
    }
    forall a, b, c | ScalarLess(a, b) && ScalarLess(b, c) ensures ScalarLess(a, c) {
      if a.Str? { StrTransitive(a.s, b.s, c.s); }
    }
    forall a, b | a != b ensures ScalarLess(a, b) || ScalarLess(b, a) {
      if a.Str? && b.Str? { StrConnected(a.s, b.s); }
    }
  }

  /** The elements of a `set` in iteration order. */
  function Scalars(s: set<Scalar>): (r: seq<Scalar>)
    ensures Sorted(r, ScalarLess) && Distinct(r)
    ensures forall x :: x in r <==> x in s
  {
    ScalarOrder();
    Ascending(s, ScalarLess)
  }

  // ----- how a slot looks to code that expects a set or a dict --------------------

  /** The members of a slot read as a set: absent and wrongly typed slots have none. */
  function AsSet(x: Option<Value>): set<Scalar> {
    if x.Some? && x.value.SetV? then x.value.elems else {}
  }

  /** The entries of a slot read as a dict: absent and wrongly typed slots have none. */
  function AsDict(x: Option<Value>): Dict {
    if x.Some? && x.value.DictV? then x.value.dict else map[]
  }

  // ----- pruning ------------------------------------------------------------------

  predicate Vacant(v: Value) {
    v == SetV({}) || v == DictV(map[])
  }

  /** No set or dict below the top level is empty, at any depth. */
  predicate Pruned(d: Dict)
    decreases DictV(d), 0
  {
    forall k | k in d :: PrunedValue(d[k])
  }

  predicate PrunedValue(v: Value)
    decreases v, 1
  {
    !Vacant(v) && (v.DictV? ==> Pruned(v.dict))
  }

  function PruneValue(v: Value): Value
    decreases v, 1
  {
    if v.DictV? then DictV(Prune(v.dict)) else v
  }

  function Prune(d: Dict): Dict
    decreases DictV(d), 0
  {
    map k | k in d && !Vacant(PruneValue(d[k])) :: PruneValue(d[k])
  }

  lemma {:induction false} PruneIsPruned(d: Dict)
    ensures Pruned(Prune(d))
    decreases DictV(d)
  {
    forall k | k in Prune(d) ensures PrunedValue(Prune(d)[k]) {
      if d[k].DictV? { PruneIsPruned(d[k].dict); }
    }
  }

  /** Pruning changes a dict exactly when the dict is not pruned. */
  lemma {:induction false} PruneFixesPruned(d: Dict)
    ensures Prune(d) == d <==> Pruned(d)
    decreases DictV(d)
  {
    forall k | k in d && d[k].DictV? ensures Prune(d[k].dict) == d[k].dict <==> Pruned(d[k].dict) {
      PruneFixesPruned(d[k].dict);
    }
    if Pruned(d) {
      forall k | k in d ensures PruneValue(d[k]) == d[k] && !Vacant(d[k]) { assert PrunedValue(d[k]); }
      assert Prune(d) == d;
    }
    if Prune(d) == d { PruneIsPruned(d); }
  }

  // ----- what a dict contains, apart from empty containers --------------------------

  /** The scalar `x` sits at `path`, as a value or as a member of a set. */
  predicate Holds(d: Dict, path: seq<string>, x: Scalar)
    decreases |path|, 0
  {
    path != [] && path[0] in d && HoldsIn(d[path[0]], path[1..], x)
  }

  predicate HoldsIn(v: Value, path: seq<string>, x: Scalar)
    decreases |path|, 1
  {
    match v
    case ScalarV(y) => path == [] && x == y
    case SetV(s) => path == [] && x in s
    case DictV(d) => Holds(d, path, x)
  }

  /** Pruning loses no content: every scalar stays where it was and none appears. */
  lemma {:induction false} PruneKeepsContent(d: Dict, path: seq<string>, x: Scalar)
    ensures Holds(Prune(d), path, x) <==> Holds(d, path, x)
    decreases |path|
  {
    if path != [] && path[0] in d && d[path[0]].DictV? {
      PruneKeepsContent(d[path[0]].dict, path[1..], x);
    }
  }

  /** The dict when the walk has visited the keys of `done`. */
  ghost function PruneAt(d: Dict, done: set<string>): Dict {
    map k | k in d && (k in done ==> !Vacant(PruneValue(d[k]))) :: if k in done then PruneValue(d[k]) else d[k]
  }

  ghost predicate PrunedOn(d: Dict, done: set<string>) {
    forall k | k in d && k in done :: PrunedValue(d[k])
  }

  lemma PruneAtStep(d: Dict, done: set<string>, k: string)
    requires k in d && k !in done
    ensures PruneAt(d, done + {k}) ==
            if Vacant(PruneValue(d[k])) then PruneAt(d, done) - {k} else PruneAt(d, done)[k := PruneValue(d[k])]
    ensures PrunedOn(d, done + {k}) <==> PrunedOn(d, done) && PrunedValue(d[k])
  {
  }

  lemma PruneAtEnds(d: Dict)
    ensures PruneAt(d, {}) == d && PrunedOn(d, {})
    ensures PruneAt(d, d.Keys) == Prune(d) && (PrunedOn(d, d.Keys) <==> Pruned(d))
  {
  }

  /** The in-place erasing walk; the flags are those of the code's pair. */
  method PruneInPlace(d: Dict) returns (pruned: Dict, shouldRemove: bool, removedSubkeys: bool)
    ensures pruned == Prune(d)
    ensures shouldRemove <==> Prune(d) == map[]
    ensures removedSubkeys <==> !Pruned(d)
    decreases DictV(d), 0
  {
    pruned, removedSubkeys := d, false;
    var keys := Keys(d.Keys);
    ghost var done: set<string> := {};
    PruneAtEnds(d);
    for i := 0 to |keys|
      invariant done <= d.Keys && Visited(keys, i, done)
      invariant pruned == PruneAt(d, done) && (removedSubkeys <==> !PrunedOn(d, done))
    {
      var k := keys[i];
      VisitNext(keys, i, done);
      var v, rmKey, rmSubkeys := PruneValueInPlace(d[k]);
      if rmKey || rmSubkeys { removedSubkeys := true; }
      pruned := if rmKey then pruned - {k} else pruned[k := v];
      PruneAtStep(d, done, k);
      done := done + {k};
    }
    AllVisited(keys, done, d.Keys);
    shouldRemove := pruned == map[];
  }

  method PruneValueInPlace(v: Value) returns (pruned: Value, shouldRemove: bool, removedSubkeys: bool)
    ensures pruned == PruneValue(v)
    ensures shouldRemove <==> Vacant(PruneValue(v))
    ensures removedSubkeys <==> v.DictV? && !Pruned(v.dict)
    ensures shouldRemove || removedSubkeys <==> !PrunedValue(v)
    decreases v, 1
  {
    match v {
      case ScalarV(_) => pruned, shouldRemove, removedSubkeys := v, false, false;
      case SetV(s) => pruned, shouldRemove, removedSubkeys := v, s == {}, false;
      case DictV(d) =>
        var e, rm, sub := PruneInPlace(d);
        PruneFixesPruned(d);
        pruned, shouldRemove, removedSubkeys := DictV(e), rm, sub;
    }
  }
}
